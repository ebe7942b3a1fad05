/** The state of a board session with sprites reduced to identities: gems
    and cells are indices into two sequences holding what the board reads
    back from a sprite (its texture name, whether it still takes pointer
    events, whether it was destroyed, where it was last moved to). This
    module defines that state, the level data it is built from, and the
    construction done by `buildSegment1/2`. */
module BoardState {
  import opened Wrappers
  import opened JsText
  import opened JsMap
  import opened BoardLayout

  /** `activeSegment` when it is not null. */
  datatype SegmentNo = First | Second

  function Other(n: SegmentNo): (m: SegmentNo)
    ensures m != n
  {
    if n == First then Second else First
  }

  /** A point on the board, kept symbolic: the centre of the cell with a key,
      a slot of a stack, or the place of a cell sprite. */
  datatype Point = Origin | CellCenter(key: string) | StackSlot(segment: SegmentNo, slot: int) | CellSprite(cell: nat)

  /** A misfilled gem sprite: its segment, texture frame, the colour its
      click handler passes (`misfilled.wrong`), whether it takes pointer
      events, whether it is alive, and where it stands. */
  datatype Gem = Gem(segment: SegmentNo, texture: string, wrong: string, interactive: bool, alive: bool, at: Point)

  /** A clickable empty-cell sprite with the colour its click handler passes (`misfilled.correct`). */
  datatype Cell = Cell(segment: SegmentNo, correct: string, interactive: bool, alive: bool)

  /** A `misfilledMap` value; `gem == None` is `gem: null`. */
  datatype Misfill = Misfill(background: nat, wrong: string, correct: string, gem: Option<nat>)

  /** The per-segment fields: `misfilledMapN`, `gemsGroupN1..N7`,
      `cellsGroupN1..N7`, `stackNMap` (keyed by the number whose text is the
      key), `stackNFilled`, `segmentNCorrectCounter`, `segmentNCompleted`. */
  datatype Segment = Segment(
    misfilled: OrderedMap<string, Misfill>,
    gemGroups: seq<seq<nat>>,
    cellGroups: seq<seq<nat>>,
    stack: OrderedMap<nat, nat>,
    filled: bool,
    counter: nat,
    completed: bool)

  /** An animation batch that has started and whose completion callbacks
      have not yet run: gem `moved[i]` flies to stack slot `i`, or to cell
      `group[i]`. */
  datatype Batch =
    | ToStack(segment: SegmentNo, moved: seq<nat>)
    | ToCells(segment: SegmentNo, group: seq<nat>, correct: string, colorCopy: string, moved: seq<nat>)

  /** A zoom animation whose completion callback has not yet run. */
  datatype ZoomJob = ZoomIn | ZoomOutToSwitch(to: SegmentNo) | ZoomOutToEnd

  datatype Board = Board(
    first: Segment,
    second: Segment,
    gems: seq<Gem>,
    cells: seq<Cell>,
    chosen: seq<nat>,
    activeColor: string,
    animating: bool,
    canClick: bool,
    initialPhase: bool,
    active: Option<SegmentNo>,
    correctCounter: nat,
    textIndex: nat,
    pendingTexts: nat,
    batch: Option<Batch>,
    zooms: seq<ZoomJob>,
    adToCta: bool)

  /** `misfills1` and `misfills2`. */
  const Misfills: nat := 7

  /** Each stack is 11 columns by 2 rows of slots. */
  const StackColumns: nat := 11
  const StackRows: nat := 2

  function StackSlotCount(): (n: nat)
    ensures n == 22
  {
    StackColumns * StackRows
  }

  /** `TEXT_ORDER`. */
  const TextOrder: seq<string> := ["good", "great", "perfect", "goodJob"]

  /** The texture frame `gem_<color>.png` of a gem sprite. */
  function GemFrame(color: string): string {
    "gem_" + color + ".png"
  }

  function Seg(b: Board, n: SegmentNo): Segment {
    if n == First then b.first else b.second
  }

  function WithSeg(b: Board, n: SegmentNo, s: Segment): (r: Board)
    ensures Seg(r, n) == s && Seg(r, Other(n)) == Seg(b, Other(n))
    ensures r.gems == b.gems && r.cells == b.cells && r.chosen == b.chosen
    ensures r.activeColor == b.activeColor && r.animating == b.animating && r.canClick == b.canClick
    ensures r.initialPhase == b.initialPhase && r.active == b.active && r.batch == b.batch
    ensures r.correctCounter == b.correctCounter && r.textIndex == b.textIndex
    ensures r.pendingTexts == b.pendingTexts && r.zooms == b.zooms && r.adToCta == b.adToCta
  {
    if n == First then b.(first := s) else b.(second := s)
  }

  // ---------------------------------------------------------------------------
  // level data
  // ---------------------------------------------------------------------------

  /** The parts of the level configuration the board reads: the layout
      blocks, the position lists of `Segments`, and the position groups
      `MISFILLED1..7` and `MISFILLED8..14`. */
  datatype Level = Level(
    layout: seq<Block>,
    segments: seq<seq<string>>,
    groups1: seq<seq<(int, int)>>,
    groups2: seq<seq<(int, int)>>)

  /** The level defines seven position groups per segment. */
  predicate ValidLevel(level: Level) {
    |level.groups1| == |Segment1Specs| && |level.groups2| == |Segment2Specs|
  }

  /** `LEVEL_CONFIG.data.Segments?.[i]`. */
  function SegmentPositions(level: Level, i: nat): Option<seq<string>> {
    if i < |level.segments| then Some(level.segments[i]) else None
  }

  // ---------------------------------------------------------------------------
  // buildSegment1/2
  // ---------------------------------------------------------------------------

  /** The misfill map and the sprites made so far. */
  datatype Built = Built(misfilled: OrderedMap<string, Misfill>, gems: seq<Gem>, cells: seq<Cell>)

  /** An entry as the build makes it: it carries the table's colours for its
      key, and it points at a live interactive gem with the wrong colour's
      texture standing on its key, and at a live interactive cell expecting
      the correct colour. */
  ghost predicate EntryFits(n: SegmentNo, table: OrderedMap<string, MisfillSpec>, gems: seq<Gem>, cells: seq<Cell>, k: string, e: Misfill) {
    && Get(table, k).Some?
    && e.wrong == Get(table, k).value.wrong
    && e.correct == Get(table, k).value.correct
    && e.gem.Some? && e.gem.value < |gems|
    && gems[e.gem.value] == Gem(n, GemFrame(e.wrong), e.wrong, true, true, CellCenter(k))
    && e.background < |cells|
    && cells[e.background] == Cell(n, e.correct, true, true)
  }

  ghost predicate WellBuilt(n: SegmentNo, table: OrderedMap<string, MisfillSpec>, b: Built) {
    forall k :: Get(b.misfilled, k).Some? ==> EntryFits(n, table, b.gems, b.cells, k, Get(b.misfilled, k).value)
  }

  /** One iteration over `segment.Positions`: a position that parses to a key
      of the table gets a fresh cell and a fresh gem, and its entry is set;
      any other position changes nothing. */
  function AddPosition(n: SegmentNo, table: OrderedMap<string, MisfillSpec>, acc: Built, pos: string): (r: Built)
    ensures acc.gems <= r.gems && acc.cells <= r.cells
    ensures WellBuilt(n, table, acc) ==> WellBuilt(n, table, r)
    ensures forall k :: Get(r.misfilled, k).Some? <==>
              Get(acc.misfilled, k).Some? || (PositionKey(pos) == Some(k) && Get(table, k).Some?)
  {
    match PositionKey(pos)
    case None => acc
    case Some(key) =>
      match Get(table, key)
      case None => acc
      case Some(spec) =>
        var c := |acc.cells|;
        var g := |acc.gems|;
        var e := Misfill(c, spec.wrong, spec.correct, Some(g));
        var r := Built(
          Set(acc.misfilled, key, e),
          acc.gems + [Gem(n, GemFrame(spec.wrong), spec.wrong, true, true, CellCenter(key))],
          acc.cells + [Cell(n, spec.correct, true, true)]);
        AddPositionFits(n, table, acc, key, spec, r);
        r
  }

  lemma AddPositionFits(n: SegmentNo, table: OrderedMap<string, MisfillSpec>, acc: Built, key: string, spec: MisfillSpec, r: Built)
    requires Get(table, key) == Some(spec)
    requires r == Built(
               Set(acc.misfilled, key, Misfill(|acc.cells|, spec.wrong, spec.correct, Some(|acc.gems|))),
               acc.gems + [Gem(n, GemFrame(spec.wrong), spec.wrong, true, true, CellCenter(key))],
               acc.cells + [Cell(n, spec.correct, true, true)])
    ensures WellBuilt(n, table, acc) ==> WellBuilt(n, table, r)
  {
    if WellBuilt(n, table, acc) {
      forall k | Get(r.misfilled, k).Some?
        ensures EntryFits(n, table, r.gems, r.cells, k, Get(r.misfilled, k).value)
      {
        if k != key {
          var e := Get(acc.misfilled, k).value;
          assert EntryFits(n, table, acc.gems, acc.cells, k, e);
          assert r.gems[e.gem.value] == acc.gems[e.gem.value];
          assert r.cells[e.background] == acc.cells[e.background];
        }
      }
    }
  }

  /** The loop over `segment.Positions`. */
  function AddPositions(n: SegmentNo, table: OrderedMap<string, MisfillSpec>, acc: Built, positions: seq<string>): (r: Built)
    ensures acc.gems <= r.gems && acc.cells <= r.cells
    ensures WellBuilt(n, table, acc) ==> WellBuilt(n, table, r)
    decreases |positions|
  {
    if |positions| == 0 then acc
    else
      var last := |positions| - 1;
      AddPosition(n, table, AddPositions(n, table, acc, positions[..last]), positions[last])
  }

  /** Some position of the list parses to `k`. */
  ghost predicate ParsesTo(positions: seq<string>, k: string) {
    exists i :: 0 <= i < |positions| && PositionKey(positions[i]) == Some(k)
  }

  ghost predicate KeyFromPositions(table: OrderedMap<string, MisfillSpec>, positions: seq<string>, k: string) {
    Get(table, k).Some? && ParsesTo(positions, k)
  }

  /** A key is in the built map exactly when it was there before or some
      position parses to it and the table has it: positions that do not
      parse, or whose key the table lacks, add nothing. */
  lemma {:induction false} AddPositionsKeys(n: SegmentNo, table: OrderedMap<string, MisfillSpec>, acc: Built, positions: seq<string>, k: string)
    ensures Get(AddPositions(n, table, acc, positions).misfilled, k).Some? <==>
            Get(acc.misfilled, k).Some? || KeyFromPositions(table, positions, k)
    decreases |positions|
  {
    if |positions| > 0 {
      var last := |positions| - 1;
      AddPositionsKeys(n, table, acc, positions[..last], k);
      ParsesToStep(positions, k);
    }
  }

  /** The last position parses to `k`, or one before it does. */
  lemma ParsesToStep(positions: seq<string>, k: string)
    requires |positions| > 0
    ensures ParsesTo(positions, k) <==>
            ParsesTo(positions[..|positions| - 1], k) || PositionKey(positions[|positions| - 1]) == Some(k)
  {
    SomeStep(positions, positions[..|positions| - 1], (p: string) => PositionKey(p) == Some(k));
  }

  /** Some element satisfies `f` exactly when the last one or an earlier one does. */
  lemma SomeStep<T>(s: seq<T>, prefix: seq<T>, f: T -> bool)
    requires |s| > 0 && prefix == s[..|s| - 1]
    ensures (exists i :: 0 <= i < |s| && f(s[i])) <==>
            (exists i :: 0 <= i < |prefix| && f(prefix[i])) || f(s[|s| - 1])
  {
    if exists i :: 0 <= i < |s| && f(s[i]) {
      var i :| 0 <= i < |s| && f(s[i]);
      if i < |prefix| {
        assert prefix[i] == s[i];
      }
    }
    if exists i :: 0 <= i < |prefix| && f(prefix[i]) {
      var i :| 0 <= i < |prefix| && f(prefix[i]);
      assert prefix[i] == s[i];
    }
  }

  /** Some position of the group has an entry holding gem `x`. */
  ghost predicate GemOfGroup(misfilled: OrderedMap<string, Misfill>, group: seq<(int, int)>, x: nat) {
    exists i :: 0 <= i < |group| && Get(misfilled, PosKey(group[i])).Some? && Get(misfilled, PosKey(group[i])).value.gem == Some(x)
  }

  /** Some position of the group has an entry whose cell is `x`. */
  ghost predicate CellOfGroup(misfilled: OrderedMap<string, Misfill>, group: seq<(int, int)>, x: nat) {
    exists i :: 0 <= i < |group| && Get(misfilled, PosKey(group[i])).Some? && Get(misfilled, PosKey(group[i])).value.background == x
  }

  lemma GemOfGroupTail(misfilled: OrderedMap<string, Misfill>, group: seq<(int, int)>, x: nat)
    requires |group| > 0 && GemOfGroup(misfilled, group[1..], x)
    ensures GemOfGroup(misfilled, group, x)
  {
    var i :| 0 <= i < |group[1..]| && Get(misfilled, PosKey(group[1..][i])).Some? && Get(misfilled, PosKey(group[1..][i])).value.gem == Some(x);
    assert group[1..][i] == group[i + 1];
  }

  lemma CellOfGroupTail(misfilled: OrderedMap<string, Misfill>, group: seq<(int, int)>, x: nat)
    requires |group| > 0 && CellOfGroup(misfilled, group[1..], x)
    ensures CellOfGroup(misfilled, group, x)
  {
    var i :| 0 <= i < |group[1..]| && Get(misfilled, PosKey(group[1..][i])).Some? && Get(misfilled, PosKey(group[1..][i])).value.background == x;
    assert group[1..][i] == group[i + 1];
  }

  /** The gems of one group: `MISFILLEDj.map(p => map.get(getKey(p.x, p.y))?.gem)`
      with the missing ones filtered out. At build time every entry holds a
      gem, so `buildSegment1`'s later `filter(g => g !== null)` keeps them all. */
  function GemGroup(misfilled: OrderedMap<string, Misfill>, group: seq<(int, int)>): (r: seq<nat>)
    ensures |r| <= |group|
    ensures forall x :: x in r ==> GemOfGroup(misfilled, group, x)
  {
    if |group| == 0 then []
    else
      var rest := GemGroup(misfilled, group[1..]);
      var e := Get(misfilled, PosKey(group[0]));
      forall x | x in rest ensures GemOfGroup(misfilled, group, x) {
        GemOfGroupTail(misfilled, group, x);
      }
      if e.Some? && e.value.gem.Some? then [e.value.gem.value] + rest else rest
  }

  /** The cells of one group: `MISFILLEDj.map(p => map.get(getKey(p.x, p.y))?.background)`
      with the missing ones filtered out. */
  function CellGroup(misfilled: OrderedMap<string, Misfill>, group: seq<(int, int)>): (r: seq<nat>)
    ensures |r| <= |group|
    ensures forall x :: x in r ==> CellOfGroup(misfilled, group, x)
  {
    if |group| == 0 then []
    else
      var rest := CellGroup(misfilled, group[1..]);
      var e := Get(misfilled, PosKey(group[0]));
      forall x | x in rest ensures CellOfGroup(misfilled, group, x) {
        CellOfGroupTail(misfilled, group, x);
      }
      if e.Some? then [e.value.background] + rest else rest
  }

  /** When every position of a group has an entry, the group loses nothing. */
  lemma {:induction false} CellGroupComplete(misfilled: OrderedMap<string, Misfill>, group: seq<(int, int)>)
    requires forall i :: 0 <= i < |group| ==> Get(misfilled, PosKey(group[i])).Some?
    ensures |CellGroup(misfilled, group)| == |group|
  {
    if |group| > 0 {
      assert forall i :: 0 <= i < |group[1..]| ==> group[1..][i] == group[i + 1];
      CellGroupComplete(misfilled, group[1..]);
    }
  }

  function GemGroups(misfilled: OrderedMap<string, Misfill>, groups: seq<seq<(int, int)>>): (r: seq<seq<nat>>)
    ensures |r| == |groups|
    ensures forall j :: 0 <= j < |groups| ==> r[j] == GemGroup(misfilled, groups[j])
  {
    if |groups| == 0 then [] else [GemGroup(misfilled, groups[0])] + GemGroups(misfilled, groups[1..])
  }

  function CellGroups(misfilled: OrderedMap<string, Misfill>, groups: seq<seq<(int, int)>>): (r: seq<seq<nat>>)
    ensures |r| == |groups|
    ensures forall j :: 0 <= j < |groups| ==> r[j] == CellGroup(misfilled, groups[j])
  {
    if |groups| == 0 then [] else [CellGroup(misfilled, groups[0])] + CellGroups(misfilled, groups[1..])
  }

  function EmptyGroups(count: nat): (r: seq<seq<nat>>)
    ensures |r| == count && forall j :: 0 <= j < count ==> r[j] == []
  {
    seq(count, _ => [])
  }

  /** `buildSegment1/2`: nothing when the segment is absent or has no
      positions; otherwise the misfill map over its positions and the seven
      gem and cell groups read back from it. Stacks start empty and unfilled,
      counters at zero. */
  function BuildSegment(n: SegmentNo, positions: Option<seq<string>>, specs: seq<MisfillSpec>,
                        groups: seq<seq<(int, int)>>, gems: seq<Gem>, cells: seq<Cell>): (r: (Segment, seq<Gem>, seq<Cell>))
    requires |specs| == |groups|
    ensures gems <= r.1 && cells <= r.2
    ensures |r.0.gemGroups| == |groups| && |r.0.cellGroups| == |groups|
    ensures r.0.stack == [] && !r.0.filled && r.0.counter == 0 && !r.0.completed
    ensures positions.None? || positions.value == [] ==> r.0.misfilled == [] && r.1 == gems && r.2 == cells
    ensures WellBuilt(n, MisfillTable(specs, groups), Built(r.0.misfilled, r.1, r.2))
  {
    if positions.None? || |positions.value| == 0 then
      (Segment([], EmptyGroups(|groups|), EmptyGroups(|groups|), [], false, 0, false), gems, cells)
    else
      var table := MisfillTable(specs, groups);
      var built := AddPositions(n, table, Built([], gems, cells), positions.value);
      (Segment(built.misfilled, GemGroups(built.misfilled, groups), CellGroups(built.misfilled, groups), [], false, 0, false),
       built.gems, built.cells)
  }

  /** The keys of a built segment: exactly the keys of parsed positions that
      the misfill table has. */
  lemma BuildSegmentKeys(n: SegmentNo, positions: seq<string>, specs: seq<MisfillSpec>,
                         groups: seq<seq<(int, int)>>, gems: seq<Gem>, cells: seq<Cell>, k: string)
    requires |specs| == |groups|
    ensures Get(BuildSegment(n, Some(positions), specs, groups, gems, cells).0.misfilled, k).Some? <==>
            Get(MisfillTable(specs, groups), k).Some? && exists i :: 0 <= i < |positions| && PositionKey(positions[i]) == Some(k)
  {
    if |positions| > 0 {
      AddPositionsKeys(n, MisfillTable(specs, groups), Built([], gems, cells), positions, k);
    }
  }

  /** Every key of a misfill map is a cell key `x;y`. */
  predicate CellKeys(m: OrderedMap<string, Misfill>) {
    forall k :: k in Keys(m) ==> ';' in k
  }

  lemma PosKeyHasSeparator(p: (int, int))
    ensures ';' in PosKey(p)
  {
    var k := PosKey(p);
    if ';' !in k {
      CountNoSeparator(k, ';');
    }
  }

  /** A built segment's misfill map has cell keys only: each of its keys is
      the key of a position of some misfill group. */
  lemma BuiltCellKeys(n: SegmentNo, specs: seq<MisfillSpec>, groups: seq<seq<(int, int)>>, m: OrderedMap<string, Misfill>, gems: seq<Gem>, cells: seq<Cell>)
    requires |specs| == |groups|
    requires WellBuilt(n, MisfillTable(specs, groups), Built(m, gems, cells))
    ensures CellKeys(m)
  {
    forall k | k in Keys(m) ensures ';' in k {
      assert EntryFits(n, MisfillTable(specs, groups), gems, cells, k, Get(m, k).value);
      MisfillTableKeys(specs, groups, k);
      var j, p :| 0 <= j < |groups| && p in groups[j] && k == PosKey(p);
      PosKeyHasSeparator(p);
    }
  }

  /** The constructor: `drawBoard`, the two stacks, `buildSegment1`,
      `buildSegment2` (whose sprites come after the first segment's), then
      `startHandMovementBetweenSegments`, which leaves the board in the
      initial selection phase with no active segment and clicks enabled. */
  function Initial(level: Level): (b: Board)
    requires ValidLevel(level)
    ensures b.initialPhase && b.active == None && b.canClick && !b.animating
    ensures b.chosen == [] && b.activeColor == "" && b.batch == None && b.zooms == []
    ensures b.correctCounter == 0 && b.textIndex == 0 && !b.adToCta
    ensures forall n :: Seg(b, n).stack == [] && !Seg(b, n).filled && Seg(b, n).counter == 0 && !Seg(b, n).completed
    ensures forall n :: |Seg(b, n).gemGroups| == Misfills && |Seg(b, n).cellGroups| == Misfills
  {
    var s1 := BuildSegment(First, SegmentPositions(level, 0), Segment1Specs, level.groups1, [], []);
    var s2 := BuildSegment(Second, SegmentPositions(level, 1), Segment2Specs, level.groups2, s1.1, s1.2);
    Board(s1.0, s2.0, s2.1, s2.2, [], "", false, true, true, None, 0, 0, 0, None, [], false)
  }

  /** A freshly built board's misfill maps have cell keys only. */
  lemma InitialCellKeys(level: Level)
    requires ValidLevel(level)
    ensures forall n :: CellKeys(Seg(Initial(level), n).misfilled)
  {
    var s1 := BuildSegment(First, SegmentPositions(level, 0), Segment1Specs, level.groups1, [], []);
    var s2 := BuildSegment(Second, SegmentPositions(level, 1), Segment2Specs, level.groups2, s1.1, s1.2);
    BuiltCellKeys(First, Segment1Specs, level.groups1, s1.0.misfilled, s1.1, s1.2);
    BuiltCellKeys(Second, Segment2Specs, level.groups2, s2.0.misfilled, s2.1, s2.2);
    assert Initial(level).first == s1.0 && Initial(level).second == s2.0;
  }
}
