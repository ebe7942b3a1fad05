/** The board's event handlers as functions from the old board to the new
    one. Pointer events on sprites, the completion of a batch of gem
    animations, the completion of a congratulation text and the completion
    of a zoom are the events; everything else the handlers do (sounds, the
    hint timer, tweens of scale and alpha) is not state the board reads
    back. */
module BoardEvents {
  import opened Wrappers
  import opened JsMap
  import opened BoardLayout
  import opened BoardState

  // ---------------------------------------------------------------------------
  // helpers on groups and maps
  // ---------------------------------------------------------------------------

  /** The index of the first group holding `x`, as
      `groups.find(group => group.find(y => y === x))`. */
  function FirstGroupWith(groups: seq<seq<nat>>, x: nat): (r: Option<nat>)
    ensures r.Some? ==> r.value < |groups| && x in groups[r.value]
    ensures r.Some? ==> forall j :: 0 <= j < r.value ==> x !in groups[j]
    ensures r.None? <==> forall j :: 0 <= j < |groups| ==> x !in groups[j]
    decreases |groups|
  {
    if |groups| == 0 then None
    else if x in groups[0] then Some(0)
    else
      match FirstGroupWith(groups[1..], x)
      case None =>
        assert forall j :: 1 <= j < |groups| ==> groups[j] == groups[1..][j - 1];
        None
      case Some(j) => Some(j + 1)
  }

  /** The gems a batch moves: slot or cell `i` receives
      `chosen[|chosen| - 1 - i]`, for as many slots as there are gems. */
  function Moved(chosen: seq<nat>, slots: nat): (r: seq<nat>)
    ensures |r| == if |chosen| < slots then |chosen| else slots
    ensures forall i :: 0 <= i < |r| ==> r[i] == chosen[|chosen| - 1 - i]
    decreases slots
  {
    if slots == 0 || |chosen| == 0 then []
    else [chosen[|chosen| - 1]] + Moved(chosen[..|chosen| - 1], slots - 1)
  }

  /** When there are enough slots every chosen gem moves, each once. */
  lemma {:induction false} MovedAll(chosen: seq<nat>, slots: nat)
    requires |chosen| <= slots
    ensures multiset(Moved(chosen, slots)) == multiset(chosen)
    decreases slots
  {
    if slots > 0 && |chosen| > 0 {
      var last := |chosen| - 1;
      var rest := Moved(chosen[..last], slots - 1);
      MovedAll(chosen[..last], slots - 1);
      assert Moved(chosen, slots) == [chosen[last]] + rest;
      assert chosen == chosen[..last] + [chosen[last]];
      assert multiset(chosen) == multiset(chosen[..last]) + multiset{chosen[last]};
    }
  }

  /** Some entry of a misfill map holds gem `g`. */
  predicate HoldsGem(m: OrderedMap<string, Misfill>, g: nat) {
    exists i :: 0 <= i < |m| && m[i].1.gem == Some(g)
  }

  /** `map.forEach((m, k) => { if (m.gem === gem) map.set(k, {...m, gem: null}) })`:
      afterwards no entry holds the gem, and nothing else changes. */
  function ReleaseGem(m: OrderedMap<string, Misfill>, g: nat): (r: OrderedMap<string, Misfill>)
    ensures Keys(r) == Keys(m)
    ensures forall x :: HoldsGem(r, x) <==> HoldsGem(m, x) && x != g
    ensures forall i :: 0 <= i < |m| ==> r[i].1 == m[i].1.(gem := r[i].1.gem)
  {
    var r := MapValues(m, (e: Misfill) => if e.gem == Some(g) then e.(gem := None) else e);
    GetMapValues(m, (e: Misfill) => if e.gem == Some(g) then e.(gem := None) else e, "");
    HoldsAfterRelease(m, g, r);
    r
  }

  lemma HoldsAfterRelease(m: OrderedMap<string, Misfill>, g: nat, r: OrderedMap<string, Misfill>)
    requires |r| == |m|
    requires forall i :: 0 <= i < |m| ==> r[i].1 == if m[i].1.gem == Some(g) then m[i].1.(gem := None) else m[i].1
    ensures forall x :: HoldsGem(r, x) <==> HoldsGem(m, x) && x != g
  {
    forall x ensures HoldsGem(r, x) <==> HoldsGem(m, x) && x != g {
      if HoldsGem(r, x) {
        var i :| 0 <= i < |r| && r[i].1.gem == Some(x);
        assert m[i].1.gem == Some(x);
      }
      if HoldsGem(m, x) && x != g {
        var i :| 0 <= i < |m| && m[i].1.gem == Some(x);
        assert r[i].1.gem == Some(x);
      }
    }
  }

  /** The final step of a batch into cells: every entry whose cell is in the
      group is made to hold gem `g0`, and the others are unchanged. */
  function AssignGroup(m: OrderedMap<string, Misfill>, group: seq<nat>, g0: nat): (r: OrderedMap<string, Misfill>)
    ensures Keys(r) == Keys(m)
    ensures forall i :: 0 <= i < |m| && m[i].1.background in group ==> r[i].1 == m[i].1.(gem := Some(g0))
    ensures forall i :: 0 <= i < |m| && m[i].1.background !in group ==> r[i].1 == m[i].1
  {
    GetMapValues(m, (e: Misfill) => if e.background in group then e.(gem := Some(g0)) else e, "");
    MapValues(m, (e: Misfill) => if e.background in group then e.(gem := Some(g0)) else e)
  }

  /** `stack.forEach((m, k) => { if (m.gem === gem) stack.delete(k) })`. */
  function DropGem(stack: OrderedMap<nat, nat>, g: nat): (r: OrderedMap<nat, nat>)
    ensures forall x :: x in r <==> x in stack && x.1 != g
    ensures g !in Values(r)
    ensures |r| == |stack| <==> g !in Values(stack)
  {
    var r := FilterValues(stack, (v: nat) => v != g);
    forall i | 0 <= i < |r| ensures Values(r)[i] != g {
      assert r[i] in r;
    }
    r
  }

  /** The final step's `stack.forEach((m, k) => { if (placed.includes(m.gem)) stack.delete(k) })`. */
  function DropGems(stack: OrderedMap<nat, nat>, placed: seq<nat>): (r: OrderedMap<nat, nat>)
    ensures forall x :: x in r <==> x in stack && x.1 !in placed
    ensures |r| == |stack| <==> forall i :: 0 <= i < |stack| ==> stack[i].1 !in placed
  {
    FilterValues(stack, (v: nat) => v !in placed)
  }

  /** Gem `moved[i]` is sent to `targets[i]`, in order; only the position of
      a moved gem changes. */
  function PlaceGems(gems: seq<Gem>, moved: seq<nat>, targets: seq<Point>): (r: seq<Gem>)
    requires |targets| == |moved|
    ensures |r| == |gems|
    ensures forall g :: 0 <= g < |gems| ==> r[g] == gems[g].(at := r[g].at)
    ensures forall g :: 0 <= g < |gems| && g !in moved ==> r[g] == gems[g]
    decreases |moved|
  {
    if |moved| == 0 then gems
    else
      var last := |moved| - 1;
      var r := PlaceGems(gems, moved[..last], targets[..last]);
      var g := moved[last];
      assert forall x :: x in moved[..last] ==> x in moved;
      if g < |r| then r[g := r[g].(at := targets[last])] else r
  }

  /** A gem that is not sent anywhere later ends at its own target. */
  lemma {:induction false} PlaceGemsTarget(gems: seq<Gem>, moved: seq<nat>, targets: seq<Point>, i: nat)
    requires |targets| == |moved| && i < |moved| && moved[i] < |gems|
    requires moved[i] !in moved[i + 1..]
    ensures PlaceGems(gems, moved, targets)[moved[i]].at == targets[i]
    decreases |moved|
  {
    var last := |moved| - 1;
    if i < last {
      assert moved[last] in moved[i + 1..];
      assert moved[..last][i + 1..] == moved[i + 1..last];
      PlaceGemsTarget(gems, moved[..last], targets[..last], i);
    }
  }

  /** The slots of a stack, `StackSlot(n, 0)`, `StackSlot(n, 1)`, …, one per moved gem. */
  function SlotTargets(n: SegmentNo, count: nat): (r: seq<Point>)
    ensures |r| == count && forall i :: 0 <= i < count ==> r[i] == StackSlot(n, i)
  {
    seq(count, i => StackSlot(n, i))
  }

  /** The cell sprites of a group, one per moved gem. */
  function CellTargets(group: seq<nat>, count: nat): (r: seq<Point>)
    requires count <= |group|
    ensures |r| == count && forall i :: 0 <= i < count ==> r[i] == CellSprite(group[i])
  {
    seq(count, i requires 0 <= i < count => CellSprite(group[i]))
  }

  // ---------------------------------------------------------------------------
  // pointer events
  // ---------------------------------------------------------------------------

  /** The pointer handler of a segment's layer, then `onSegmentClick`. It is
      not wrapped in `canClick`. */
  function SegmentClick(b: Board, n: SegmentNo): (r: Board)
    ensures r != b <==> b.initialPhase && !Seg(b, n).completed && b.active == None
    ensures r != b ==> !r.initialPhase && r.active == Some(n) && r.zooms == b.zooms + [ZoomIn]
    ensures r == b.(initialPhase := r.initialPhase, active := r.active, zooms := r.zooms)
  {
    if b.initialPhase && !Seg(b, n).completed && b.active == None then
      b.(initialPhase := false, active := Some(n), zooms := b.zooms + [ZoomIn])
    else b
  }

  /** The guards of a stack slot's `canClick && onStackNClick()`. */
  predicate StackClickActs(b: Board, n: SegmentNo) {
    && b.canClick
    && b.activeColor != ""
    && !b.animating
    && !Seg(b, n).filled
    && !b.initialPhase
    && b.active == Some(n)
  }

  /** A click on a stack slot: `moveGemsToStackN` starts a batch flying the
      chosen gems, the last chosen first, into the stack's 22 slots. */
  function StackClick(b: Board, n: SegmentNo): (r: Board)
    ensures r != b <==> StackClickActs(b, n)
    ensures r != b ==> r.animating && Seg(r, n).filled && r.activeColor == ""
    ensures r != b ==> r.batch == Some(ToStack(n, Moved(b.chosen, StackSlotCount())))
    ensures r.chosen == b.chosen && r.gems == b.gems && r.cells == b.cells && r.canClick == b.canClick
    ensures Seg(r, n) == Seg(b, n).(filled := Seg(r, n).filled)
    ensures Seg(r, Other(n)) == Seg(b, Other(n))
    ensures r.initialPhase == b.initialPhase && r.active == b.active && r.textIndex == b.textIndex && r.zooms == b.zooms
  {
    if StackClickActs(b, n) then
      WithSeg(b, n, Seg(b, n).(filled := true)).(
        animating := true, activeColor := "", batch := Some(ToStack(n, Moved(b.chosen, StackSlotCount()))))
    else b
  }

  /** The guards of a gem's `canClick && onMisfilledNGemClick(gem, wrong)`. */
  predicate GemClickActs(b: Board, g: nat) {
    && b.canClick
    && g < |b.gems|
    && b.gems[g].interactive
    && b.gems[g].alive
    && !b.animating
    && !b.initialPhase
    && b.active == Some(b.gems[g].segment)
    && g !in b.chosen
  }

  /** The chosen gems after selecting gem `g`: its first group if it has
      one, otherwise nothing when a colour was active and the old choice
      when none was. */
  function ChosenAfter(b: Board, g: nat): (r: seq<nat>)
    requires g < |b.gems|
    ensures FirstGroupWith(Seg(b, b.gems[g].segment).gemGroups, g).Some? ==> g in r
    ensures FirstGroupWith(Seg(b, b.gems[g].segment).gemGroups, g).None? ==> r == if b.activeColor != "" then [] else b.chosen
  {
    var groups := Seg(b, b.gems[g].segment).gemGroups;
    match FirstGroupWith(groups, g)
    case Some(j) => groups[j]
    case None => if b.activeColor != "" then [] else b.chosen
  }

  /** A click on a misfilled gem selects its colour and its whole group. */
  function GemClick(b: Board, g: nat): (r: Board)
    ensures !GemClickActs(b, g) ==> r == b
    ensures GemClickActs(b, g) ==> r.activeColor == b.gems[g].wrong && r.chosen == ChosenAfter(b, g)
    ensures r == b.(activeColor := r.activeColor, chosen := r.chosen)
  {
    if GemClickActs(b, g) then b.(activeColor := b.gems[g].wrong, chosen := ChosenAfter(b, g))
    else b
  }

  /** The guards of an empty cell's `canClick && onMisfilledNEmptyClick(cell, correct)`. */
  predicate CellClickActs(b: Board, c: nat) {
    && b.canClick
    && c < |b.cells|
    && b.cells[c].interactive
    && b.cells[c].alive
    && b.cells[c].correct == b.activeColor
    && b.activeColor != ""
    && !b.animating
    && !b.initialPhase
    && b.active == Some(b.cells[c].segment)
    && FirstGroupWith(Seg(b, b.cells[c].segment).cellGroups, c).Some?
  }

  /** A click on an empty cell whose expected colour is the active one
      starts a batch flying the chosen gems, the last chosen first, into the
      cells of the cell's first group. */
  function CellClick(b: Board, c: nat): (r: Board)
    ensures r != b <==> CellClickActs(b, c)
    ensures r != b ==> r.animating && r.activeColor == "" && r.batch.Some? && r.batch.value.ToCells?
    ensures r != b ==> var batch := r.batch.value;
                       && batch.segment == b.cells[c].segment
                       && batch.group in Seg(b, batch.segment).cellGroups && c in batch.group
                       && batch.correct == b.cells[c].correct && batch.colorCopy == b.activeColor
                       && batch.moved == Moved(b.chosen, |batch.group|)
    ensures r.chosen == b.chosen && r.gems == b.gems && r.cells == b.cells && r.first == b.first && r.second == b.second
  {
    if CellClickActs(b, c) then
      var n := b.cells[c].segment;
      var groups := Seg(b, n).cellGroups;
      var group := groups[FirstGroupWith(groups, c).value];
      b.(activeColor := "", animating := true,
         batch := Some(ToCells(n, group, b.cells[c].correct, b.activeColor, Moved(b.chosen, |group|))))
    else b
  }

  /** The handler only acts when the cell's colour is the active one, so
      every batch into cells is a correct placement: the branch for a wrong
      placement never runs. */
  lemma CellBatchIsCorrect(b: Board, c: nat)
    requires CellClick(b, c) != b
    ensures CellClick(b, c).batch.value.colorCopy == CellClick(b, c).batch.value.correct
  {
  }

  // ---------------------------------------------------------------------------
  // a batch into a stack
  // ---------------------------------------------------------------------------

  /** How the final step keys the stack: by each chosen gem's own index, as
      the first stack does, or by the slot counter of the enclosing
      callback, as the second stack's code is written. */
  datatype Keying = ByIndex | BySlotCounter

  /** The stack key for the chosen gem at index `idx`; the enclosing
      callback's slot counter is always `count - 1` when the step runs. */
  function StackKey(keying: Keying, idx: nat, count: nat): nat
    requires idx < count
  {
    if keying == ByIndex then idx else count - 1
  }

  /** The final step for one chosen gem: if an entry holds it, the gem is
      recorded in the stack under `key` and every entry holding it is
      emptied. */
  function StackGem(s: Segment, key: nat, g: nat): (r: Segment)
    ensures !HoldsGem(r.misfilled, g)
    ensures forall x :: HoldsGem(r.misfilled, x) ==> HoldsGem(s.misfilled, x)
    ensures forall x :: x != g ==> (HoldsGem(r.misfilled, x) <==> HoldsGem(s.misfilled, x))
    ensures Keys(r.misfilled) == Keys(s.misfilled)
    ensures HoldsGem(s.misfilled, g) ==> Get(r.stack, key) == Some(g)
    ensures forall k :: k != key ==> Get(r.stack, k) == Get(s.stack, k)
    ensures !HoldsGem(s.misfilled, g) ==> r == s
    ensures r == s.(misfilled := r.misfilled, stack := r.stack)
  {
    if HoldsGem(s.misfilled, g) then
      s.(misfilled := ReleaseGem(s.misfilled, g), stack := Set(s.stack, key, g))
    else s
  }

  /** The final step adds no stack key other than `key`. */
  lemma StackGemKeys(s: Segment, key: nat, g: nat, x: nat)
    requires x in Keys(StackGem(s, key, g).stack)
    ensures x in Keys(s.stack) || x == key
  {
    if HoldsGem(s.misfilled, g) {
      SetKeys(s.stack, key, g, x);
    }
  }

  /** The final step over the first `k` chosen gems, in order. */
  function StackGems(s: Segment, keying: Keying, chosen: seq<nat>, k: nat): (r: Segment)
    requires k <= |chosen|
    ensures forall i :: 0 <= i < k ==> !HoldsGem(r.misfilled, chosen[i])
    ensures forall x :: HoldsGem(r.misfilled, x) ==> HoldsGem(s.misfilled, x)
    ensures Keys(r.misfilled) == Keys(s.misfilled)
    ensures r == s.(misfilled := r.misfilled, stack := r.stack)
    decreases k
  {
    if k == 0 then s
    else StackGem(StackGems(s, keying, chosen, k - 1), StackKey(keying, k - 1, |chosen|), chosen[k - 1])
  }

  /** Keyed by index, the stack gains only the indices of chosen gems. */
  lemma {:induction false} FirstStackKeys(s: Segment, chosen: seq<nat>, k: nat, x: nat)
    requires k <= |chosen|
    requires x in Keys(StackGems(s, ByIndex, chosen, k).stack)
    ensures x in Keys(s.stack) || x < k
    decreases k
  {
    if k > 0 {
      var prev := StackGems(s, ByIndex, chosen, k - 1);
      StackGemsStep(s, ByIndex, chosen, k);
      StackGemKeys(prev, StackKey(ByIndex, k - 1, |chosen|), chosen[k - 1], x);
      if x in Keys(prev.stack) {
        FirstStackKeys(s, chosen, k - 1, x);
      }
    }
  }

  /** Keyed by the slot counter, every chosen gem goes under the same key
      `|chosen| - 1`, so each one overwrites the last. */
  lemma {:induction false} SecondStackKeys(s: Segment, chosen: seq<nat>, k: nat, x: nat)
    requires k <= |chosen|
    requires x in Keys(StackGems(s, BySlotCounter, chosen, k).stack)
    ensures x in Keys(s.stack) || x == |chosen| - 1
    decreases k
  {
    if k > 0 {
      var prev := StackGems(s, BySlotCounter, chosen, k - 1);
      StackGemsStep(s, BySlotCounter, chosen, k);
      StackGemKeys(prev, StackKey(BySlotCounter, k - 1, |chosen|), chosen[k - 1], x);
      if x in Keys(prev.stack) {
        SecondStackKeys(s, chosen, k - 1, x);
      }
    }
  }

  /** The final step leaves the entries holding gems it has not reached alone. */
  lemma {:induction false} StackGemsKeepOthers(s: Segment, keying: Keying, chosen: seq<nat>, k: nat, x: nat)
    requires k <= |chosen|
    requires forall i :: 0 <= i < k ==> chosen[i] != x
    ensures HoldsGem(StackGems(s, keying, chosen, k).misfilled, x) == HoldsGem(s.misfilled, x)
    decreases k
  {
    if k > 0 {
      var prev := StackGems(s, keying, chosen, k - 1);
      StackGemsKeepOthers(s, keying, chosen, k - 1, x);
      StackGemsStep(s, keying, chosen, k);
      StackGemKeepsOther(prev, StackKey(keying, k - 1, |chosen|), chosen[k - 1], x);
    }
  }

  lemma StackGemsStep(s: Segment, keying: Keying, chosen: seq<nat>, k: nat)
    requires 0 < k <= |chosen|
    ensures StackGems(s, keying, chosen, k) == StackGem(StackGems(s, keying, chosen, k - 1), StackKey(keying, k - 1, |chosen|), chosen[k - 1])
  {
  }

  lemma StackGemKeepsOther(s: Segment, key: nat, g: nat, x: nat)
    requires x != g
    ensures HoldsGem(StackGem(s, key, g).misfilled, x) == HoldsGem(s.misfilled, x)
  {
  }

  lemma StackGemKeepsKey(s: Segment, key: nat, g: nat, k: nat)
    requires k != key
    ensures Get(StackGem(s, key, g).stack, k) == Get(s.stack, k)
  {
  }

  lemma StackGemRecords(s: Segment, key: nat, g: nat)
    requires HoldsGem(s.misfilled, g)
    ensures Get(StackGem(s, key, g).stack, key) == Some(g)
  {
  }

  /** Keyed by index, as the first stack is, every chosen gem that an entry
      held is found in the stack under its own index. */
  lemma IndexedStackRecordsAll(s: Segment, chosen: seq<nat>, i: nat)
    requires i < |chosen|
    requires forall a :: 0 <= a < |chosen| && a != i ==> chosen[a] != chosen[i]
    requires HoldsGem(s.misfilled, chosen[i])
    ensures Get(StackGems(s, ByIndex, chosen, |chosen|).stack, i) == Some(chosen[i])
  {
    FirstStackRecords(s, chosen, |chosen| - 1, |chosen|, i);
  }

  /** The induction behind `IndexedStackRecordsAll`, over the first `k`
      steps, with `j` naming `k - 1`. */
  lemma {:induction false} FirstStackRecords(s: Segment, chosen: seq<nat>, j: nat, k: nat, i: nat)
    requires k == j + 1 && i <= j < |chosen|
    requires forall a :: 0 <= a <= j && a != i ==> chosen[a] != chosen[i]
    requires HoldsGem(s.misfilled, chosen[i])
    ensures Get(StackGems(s, ByIndex, chosen, k).stack, i) == Some(chosen[i])
    decreases j
  {
    if i == j {
      StackGemsKeepOthers(s, ByIndex, chosen, j, chosen[i]);
      FirstStackRecordsNext(s, chosen, j, k);
    } else {
      FirstStackRecords(s, chosen, j - 1, j, i);
      FirstStackKeepsEarlier(s, chosen, j, k, i, chosen[i]);
    }
  }

  /** Keyed by index, step `j` records the gem under `j`. */
  lemma FirstStackRecordsNext(s: Segment, chosen: seq<nat>, j: nat, k: nat)
    requires k == j + 1 && j < |chosen|
    requires HoldsGem(StackGems(s, ByIndex, chosen, j).misfilled, chosen[j])
    ensures Get(StackGems(s, ByIndex, chosen, k).stack, j) == Some(chosen[j])
  {
    assert StackGems(s, ByIndex, chosen, k) == StackGem(StackGems(s, ByIndex, chosen, j), j, chosen[j]);
    StackGemRecords(StackGems(s, ByIndex, chosen, j), j, chosen[j]);
  }

  /** Keyed by index, step `j` leaves the other indices alone. */
  lemma FirstStackKeepsEarlier(s: Segment, chosen: seq<nat>, j: nat, k: nat, i: nat, v: nat)
    requires k == j + 1 && i < j < |chosen|
    requires Get(StackGems(s, ByIndex, chosen, j).stack, i) == Some(v)
    ensures Get(StackGems(s, ByIndex, chosen, k).stack, i) == Some(v)
  {
    assert StackGems(s, ByIndex, chosen, k) == StackGem(StackGems(s, ByIndex, chosen, j), j, chosen[j]);
    StackGemKeepsKey(StackGems(s, ByIndex, chosen, j), j, chosen[j], i);
  }

  /** Keyed as the second stack's code is written, a stack filled from
      empty ends with at most one entry however many gems moved into it. */
  lemma SecondStackHoldsOne(s: Segment, chosen: seq<nat>, k: nat)
    requires k <= |chosen| && s.stack == []
    ensures |StackGems(s, BySlotCounter, chosen, k).stack| <= 1
  {
    if k > 0 {
      SecondStackKeepsOne(s, chosen, k - 1, k);
    }
  }

  /** The induction behind `SecondStackHoldsOne`, over the first `k` steps,
      with `j` naming `k - 1`. */
  lemma {:induction false} SecondStackKeepsOne(s: Segment, chosen: seq<nat>, j: nat, k: nat)
    requires k == j + 1 && k <= |chosen| && s.stack == []
    ensures |StackGems(s, BySlotCounter, chosen, k).stack| <= 1
    decreases j
  {
    var prev := StackGems(s, BySlotCounter, chosen, j);
    var key := StackKey(BySlotCounter, j, |chosen|);
    if j > 0 {
      SecondStackKeepsOne(s, chosen, j - 1, j);
    }
    SecondStackOneKey(s, chosen, j, j);
    StackGemKeepsSingle(prev, key, chosen[j]);
    SecondStackStep(s, chosen, j, k);
  }

  /** Keyed by the slot counter, every key is the one the next step writes. */
  lemma SecondStackOneKey(s: Segment, chosen: seq<nat>, k: nat, idx: nat)
    requires k <= |chosen| && idx < |chosen| && s.stack == []
    ensures forall x :: x in Keys(StackGems(s, BySlotCounter, chosen, k).stack) ==> x == StackKey(BySlotCounter, idx, |chosen|)
  {
    forall x | x in Keys(StackGems(s, BySlotCounter, chosen, k).stack) ensures x == StackKey(BySlotCounter, idx, |chosen|) {
      SecondStackKeys(s, chosen, k, x);
    }
  }

  lemma SecondStackStep(s: Segment, chosen: seq<nat>, j: nat, k: nat)
    requires k == j + 1 && k <= |chosen|
    ensures StackGems(s, BySlotCounter, chosen, k) == StackGem(StackGems(s, BySlotCounter, chosen, j), StackKey(BySlotCounter, j, |chosen|), chosen[j])
  {
    StackGemsNext(s, BySlotCounter, chosen, j);
  }

  lemma StackGemsNext(s: Segment, keying: Keying, chosen: seq<nat>, j: nat)
    requires j < |chosen|
    ensures StackGems(s, keying, chosen, j + 1) == StackGem(StackGems(s, keying, chosen, j), StackKey(keying, j, |chosen|), chosen[j])
  {
  }

  /** Writing the only key a stack of at most one entry can have keeps it at
      most one entry. */
  lemma StackGemKeepsSingle(s: Segment, key: nat, g: nat)
    requires |s.stack| <= 1 && forall x :: x in Keys(s.stack) ==> x == key
    ensures |StackGem(s, key, g).stack| <= 1
  {
    if HoldsGem(s.misfilled, g) {
      var st := Set(s.stack, key, g);
      SetShape(s.stack, key, g);
      if key in Keys(s.stack) {
        assert |Keys(st)| == |Keys(s.stack)|;
      } else {
        if |s.stack| == 1 {
          assert s.stack[0].0 in Keys(s.stack);
        }
      }
    }
  }

  /** Two distinct gems held by entries of a segment, moved into an empty
      stack: keyed as the second stack's code is written, one of them is
      lost from the stack's map; keyed by index, both are recorded. */
  lemma SecondStackLosesAGem(s: Segment, chosen: seq<nat>)
    requires |chosen| == 2 && chosen[0] != chosen[1] && s.stack == []
    requires HoldsGem(s.misfilled, chosen[0]) && HoldsGem(s.misfilled, chosen[1])
    ensures |StackGems(s, BySlotCounter, chosen, |chosen|).stack| <= 1
    ensures Get(StackGems(s, ByIndex, chosen, |chosen|).stack, 0) == Some(chosen[0])
    ensures Get(StackGems(s, ByIndex, chosen, |chosen|).stack, 1) == Some(chosen[1])
  {
    SecondStackHoldsOne(s, chosen, |chosen|);
    IndexedStackRecordsAll(s, chosen, 0);
    IndexedStackRecordsAll(s, chosen, 1);
  }

  /** How the final step of `moveGemsToStackN` keys its stack:
      `moveGemsToStack1` by the chosen gem's own index,
      `moveGemsToStack2` by the index of the enclosing slot callback. */
  function StackKeying(n: SegmentNo): (k: Keying)
    ensures k == ByIndex <==> n == First
  {
    if n == First then ByIndex else BySlotCounter
  }

  /** Completion of a batch into stack `n`: each moved gem lands in its
      slot; when the last chosen gem has a slot (1 to 22 gems), the final
      step records them in the stack, empties their entries and ends the
      animation. With more than 22 gems, or none, the final step never runs
      and the board stays animating. Each stack is keyed as its code is
      written: the first by each gem's index, the second by the slot
      counter, so the second keeps at most one new entry (see
      `SecondStackHoldsOne`; `IndexedStackRecordsAll` is the intended
      keying). */
  function StackDone(b: Board, n: SegmentNo, moved: seq<nat>): (r: Board)
    ensures r.batch == None && |r.gems| == |b.gems|
    ensures 1 <= |b.chosen| <= StackSlotCount() ==> r.chosen == [] && !r.animating
    ensures 1 <= |b.chosen| <= StackSlotCount() ==> Seg(r, n) == StackGems(Seg(b, n), StackKeying(n), b.chosen, |b.chosen|)
    ensures !(1 <= |b.chosen| <= StackSlotCount()) ==> r.chosen == b.chosen && r.animating == b.animating && Seg(r, n) == Seg(b, n)
    ensures r.gems == PlaceGems(b.gems, moved, SlotTargets(n, |moved|))
    ensures Seg(r, Other(n)) == Seg(b, Other(n)) && r.cells == b.cells
    ensures r == b.(gems := r.gems, first := r.first, second := r.second, chosen := r.chosen, animating := r.animating, batch := None)
  {
    var gems := PlaceGems(b.gems, moved, SlotTargets(n, |moved|));
    if 1 <= |b.chosen| <= StackSlotCount() then
      var s := StackGems(Seg(b, n), StackKeying(n), b.chosen, |b.chosen|);
      WithSeg(b.(gems := gems, chosen := [], animating := false, batch := None), n, s)
    else
      b.(gems := gems, batch := None)
  }

  // ---------------------------------------------------------------------------
  // a batch into cells
  // ---------------------------------------------------------------------------

  /** One gem's callback on its segment: entries holding the gem are
      emptied, stack entries holding it are deleted, and finding one there
      unfills the stack. */
  function ReleaseFromSegment(s: Segment, g: nat): (r: Segment)
    ensures forall x :: HoldsGem(r.misfilled, x) <==> HoldsGem(s.misfilled, x) && x != g
    ensures Keys(r.misfilled) == Keys(s.misfilled)
    ensures forall x :: x in r.stack <==> x in s.stack && x.1 != g
    ensures r.filled == (s.filled && g !in Values(s.stack))
    ensures r == s.(misfilled := r.misfilled, stack := r.stack, filled := r.filled)
  {
    s.(misfilled := ReleaseGem(s.misfilled, g), stack := DropGem(s.stack, g), filled := s.filled && g !in Values(s.stack))
  }

  /** The callbacks of all moved gems on their segment, in order: no entry
      holds a moved gem afterwards and the stack has lost exactly the
      entries holding one. */
  function ReleaseAll(s: Segment, moved: seq<nat>): (r: Segment)
    ensures forall x :: HoldsGem(r.misfilled, x) <==> HoldsGem(s.misfilled, x) && x !in moved
    ensures Keys(r.misfilled) == Keys(s.misfilled)
    ensures forall x :: x in r.stack <==> x in s.stack && x.1 !in moved
    ensures r.filled ==> s.filled
    ensures r == s.(misfilled := r.misfilled, stack := r.stack, filled := r.filled)
    decreases |moved|
  {
    if |moved| == 0 then s
    else
      var last := |moved| - 1;
      assert forall x :: x in moved <==> x in moved[..last] || x == moved[last] by {
        assert moved == moved[..last] + [moved[last]];
      }
      ReleaseFromSegment(ReleaseAll(s, moved[..last]), moved[last])
  }

  /** A correct placement gives the moved gems the correct colour's frame
      and makes them ignore the pointer. */
  function Recolor(gems: seq<Gem>, moved: seq<nat>, color: string): (r: seq<Gem>)
    ensures |r| == |gems|
    ensures forall g :: 0 <= g < |gems| && g in moved ==> r[g] == gems[g].(texture := GemFrame(color), interactive := false)
    ensures forall g :: 0 <= g < |gems| && g !in moved ==> r[g] == gems[g]
  {
    seq(|gems|, g requires 0 <= g < |gems| => if g in moved then gems[g].(texture := GemFrame(color), interactive := false) else gems[g])
  }

  /** A correct placement makes the filled cells ignore the pointer. */
  function Freeze(cells: seq<Cell>, filled: seq<nat>): (r: seq<Cell>)
    ensures |r| == |cells|
    ensures forall c :: 0 <= c < |cells| && c in filled ==> r[c] == cells[c].(interactive := false)
    ensures forall c :: 0 <= c < |cells| && c !in filled ==> r[c] == cells[c]
  {
    seq(|cells|, c requires 0 <= c < |cells| => if c in filled then cells[c].(interactive := false) else cells[c])
  }

  /** The segment side of the final step: entries whose cell is in the group
      are made to hold the first placed gem, stack entries holding a placed
      gem are deleted (emptying the stack unfills it), and a correct placement
      counts and completes the segment at the seventh. */
  function FinishSegment(s: Segment, group: seq<nat>, placed: seq<nat>, placedRight: bool): (r: Segment)
    requires |placed| > 0
    ensures Keys(r.misfilled) == Keys(s.misfilled)
    ensures forall i :: 0 <= i < |s.misfilled| && s.misfilled[i].1.background in group ==>
              r.misfilled[i].1 == s.misfilled[i].1.(gem := Some(placed[0]))
    ensures forall i :: 0 <= i < |s.misfilled| && s.misfilled[i].1.background !in group ==>
              r.misfilled[i].1 == s.misfilled[i].1
    ensures forall x :: x in r.stack <==> x in s.stack && x.1 !in placed
    ensures r.filled ==> s.filled
    ensures (forall i :: 0 <= i < |s.stack| ==> s.stack[i].1 !in placed) ==> r.filled == s.filled
    ensures r.counter == if placedRight then s.counter + 1 else s.counter
    ensures r.completed <==> s.completed || (placedRight && r.counter == Misfills)
    ensures r.gemGroups == s.gemGroups && r.cellGroups == s.cellGroups
  {
    var st := DropGems(s.stack, placed);
    var counter := if placedRight then s.counter + 1 else s.counter;
    s.(misfilled := AssignGroup(s.misfilled, group, placed[0]), stack := st,
       filled := if |st| < |s.stack| && |st| == 0 then false else s.filled,
       counter := counter, completed := s.completed || (placedRight && counter == Misfills))
  }

  /** The counter values at which a placement shows a congratulation text:
      `misfills - 3` to `misfills`. */
  predicate ShowsText(counter: nat) {
    Misfills - 3 <= counter <= Misfills
  }

  /** The zoom that follows completing segment `n`: over to the other
      segment, or out to the end when that one is complete too. */
  function ZoomAfterCompletion(b: Board, n: SegmentNo): ZoomJob {
    if Seg(b, Other(n)).completed then ZoomOutToEnd else ZoomOutToSwitch(Other(n))
  }

  /** The final step of a batch into cells, run by the callback of the last
      chosen gem: the segment side, then the end of the animation; a correct
      placement counts in the total, may show a text, and completing the
      segment disables clicks and zooms out. */
  function FinishCells(b: Board, n: SegmentNo, group: seq<nat>, correct: string, copy: string): (r: Board)
    requires |b.chosen| > 0
    ensures r.chosen == [] && !r.animating && r.batch == None
    ensures Seg(r, n) == FinishSegment(Seg(b, n), group, b.chosen, copy == correct)
    ensures r.correctCounter == if copy == correct then b.correctCounter + 1 else b.correctCounter
    ensures r.pendingTexts == if copy == correct && ShowsText(Seg(r, n).counter) then b.pendingTexts + 1 else b.pendingTexts
    ensures !Seg(b, n).completed && Seg(r, n).completed ==> !r.canClick && r.zooms == b.zooms + [ZoomAfterCompletion(b, n)]
    ensures Seg(b, n).completed || !Seg(r, n).completed ==> r.zooms == b.zooms
    ensures r.canClick ==> b.canClick
    ensures Seg(r, Other(n)) == Seg(b, Other(n)) && r.gems == b.gems && r.cells == b.cells
    ensures r.active == b.active && r.initialPhase == b.initialPhase && r.textIndex == b.textIndex
  {
    var s' := FinishSegment(Seg(b, n), group, b.chosen, copy == correct);
    var text := copy == correct && ShowsText(s'.counter);
    var completes := s'.completed && !Seg(b, n).completed;
    var b' := b.(chosen := [], animating := false, batch := None,
                 correctCounter := if copy == correct then b.correctCounter + 1 else b.correctCounter,
                 pendingTexts := if text then b.pendingTexts + 1 else b.pendingTexts,
                 canClick := if text || completes then false else b.canClick,
                 zooms := if completes then b.zooms + [ZoomAfterCompletion(b, n)] else b.zooms);
    WithSeg(b', n, s')
  }

  /** Completion of a batch into the cells of `group`: each moved gem's
      callback (its segment side, its new place, and on a correct placement
      its frame and both sprites' pointer events), then the final step when
      the last chosen gem had a cell. Without one (no gem, or more gems than
      cells) the final step never runs and the board stays animating. */
  function CellsDone(b: Board, n: SegmentNo, group: seq<nat>, correct: string, copy: string, moved: seq<nat>): (r: Board)
    requires |moved| <= |group|
    ensures r.batch == None && |r.gems| == |b.gems| && |r.cells| == |b.cells|
    ensures 1 <= |b.chosen| <= |group| ==> r.chosen == [] && !r.animating
    ensures 1 <= |b.chosen| <= |group| ==>
              Seg(r, n) == FinishSegment(ReleaseAll(Seg(b, n), moved), group, b.chosen, copy == correct)
    ensures !(1 <= |b.chosen| <= |group|) ==>
              r.chosen == b.chosen && r.animating == b.animating && Seg(r, n) == ReleaseAll(Seg(b, n), moved)
    ensures forall g :: 0 <= g < |b.gems| && g !in moved ==> r.gems[g] == b.gems[g]
    ensures copy == correct ==> forall g :: 0 <= g < |b.gems| && g in moved ==>
              r.gems[g].texture == GemFrame(correct) && !r.gems[g].interactive
    ensures copy == correct ==> forall c :: 0 <= c < |b.cells| && c in group[..|moved|] ==> !r.cells[c].interactive
    ensures Seg(r, Other(n)) == Seg(b, Other(n))
  {
    var s := ReleaseAll(Seg(b, n), moved);
    var recolored := if copy == correct then Recolor(b.gems, moved, correct) else b.gems;
    var gems := PlaceGems(recolored, moved, CellTargets(group, |moved|));
    var cells := if copy == correct then Freeze(b.cells, group[..|moved|]) else b.cells;
    var landed := WithSeg(b.(gems := gems, cells := cells, batch := None), n, s);
    if 1 <= |b.chosen| <= |group| then FinishCells(landed, n, group, correct, copy) else landed
  }

  /** When the final step runs, every chosen gem has already been through
      its own callback, which deleted it from the stack: the final step's own
      deletion of placed gems from the stack never finds one, and so never
      unfills the stack. */
  lemma FinalStackCleanupIsIdle(s: Segment, chosen: seq<nat>, slots: nat)
    requires |chosen| <= slots
    ensures var released := ReleaseAll(s, Moved(chosen, slots));
            forall i :: 0 <= i < |released.stack| ==> released.stack[i].1 !in chosen
  {
    var moved := Moved(chosen, slots);
    MovedAll(chosen, slots);
    var released := ReleaseAll(s, moved);
    forall i | 0 <= i < |released.stack| ensures released.stack[i].1 !in chosen {
      assert released.stack[i] in released.stack;
      assert released.stack[i].1 !in moved;
      assert forall x :: x in chosen <==> x in multiset(chosen);
      assert forall x :: x in moved <==> x in multiset(moved);
    }
  }

  /** `BatchDone`: the callbacks of the batch in flight. A stack batch whose
      final step runs records the chosen gems in that stack under its own
      keying (a segment-2 batch thus keeps only one), empties the chosen
      gems and ends the animation; a cell batch whose final step runs
      commits the group. A batch whose final step never runs keeps the
      chosen gems and the animation flag. */
  function BatchDone(b: Board): (r: Board)
    ensures r.batch == None
    ensures b.batch == None ==> r == b
    ensures b.batch.Some? ==> Seg(r, Other(b.batch.value.segment)) == Seg(b, Other(b.batch.value.segment))
    ensures b.batch.Some? && b.batch.value.ToStack? ==>
              var n := b.batch.value.segment;
              && r.cells == b.cells
              && (1 <= |b.chosen| <= StackSlotCount() ==>
                    r.chosen == [] && !r.animating && Seg(r, n) == StackGems(Seg(b, n), StackKeying(n), b.chosen, |b.chosen|))
              && (!(1 <= |b.chosen| <= StackSlotCount()) ==>
                    r.chosen == b.chosen && r.animating == b.animating && Seg(r, n) == Seg(b, n))
    ensures b.batch.Some? && b.batch.value.ToCells? ==>
              var bt := b.batch.value;
              && (|bt.moved| <= |bt.group| && 1 <= |b.chosen| <= |bt.group| ==>
                    r.chosen == [] && !r.animating &&
                    Seg(r, bt.segment) == FinishSegment(ReleaseAll(Seg(b, bt.segment), bt.moved), bt.group, b.chosen, bt.colorCopy == bt.correct))
              && (!(|bt.moved| <= |bt.group| && 1 <= |b.chosen| <= |bt.group|) ==>
                    r.chosen == b.chosen && r.animating == b.animating)
  {
    match b.batch
    case None => b
    case Some(ToStack(n, moved)) => StackDone(b, n, moved)
    case Some(ToCells(n, group, correct, copy, moved)) =>
      if |moved| <= |group| then CellsDone(b, n, group, correct, copy, moved) else b.(batch := None)
  }

  /** As written, a batch into an empty second stack leaves that stack with
      at most one entry, however many gems flew into it. */
  lemma SecondBatchKeepsOne(b: Board, moved: seq<nat>)
    requires b.batch == Some(ToStack(Second, moved)) && b.second.stack == []
    ensures |BatchDone(b).second.stack| <= 1
  {
    if 1 <= |b.chosen| <= StackSlotCount() {
      SecondStackHoldsOne(b.second, b.chosen, |b.chosen|);
    }
  }

  // ---------------------------------------------------------------------------
  // texts and zooms
  // ---------------------------------------------------------------------------

  /** The end of a congratulation text: `currentTextIndex` moves on round
      `TEXT_ORDER` and clicks are enabled again. */
  function TextDone(b: Board): (r: Board)
    ensures b.pendingTexts == 0 ==> r == b
    ensures b.pendingTexts > 0 ==> r.pendingTexts == b.pendingTexts - 1 && r.canClick
    ensures b.pendingTexts > 0 ==> r.textIndex < |TextOrder| && (r.textIndex == 0 <==> b.textIndex % |TextOrder| == |TextOrder| - 1)
    ensures b.pendingTexts > 0 && b.textIndex < |TextOrder| - 1 ==> r.textIndex == b.textIndex + 1
    ensures r == b.(pendingTexts := r.pendingTexts, textIndex := r.textIndex, canClick := r.canClick)
  {
    if b.pendingTexts == 0 then b
    else b.(pendingTexts := b.pendingTexts - 1, textIndex := (b.textIndex + 1) % |TextOrder|, canClick := true)
  }

  /** `k` texts ending one after another. */
  function TextsDone(b: Board, k: nat): Board {
    if k == 0 then b else TextDone(TextsDone(b, k - 1))
  }

  /** Each of `k` shown texts, on ending, moves the index one place round
      `TEXT_ORDER`; so four in a row show every text once and come back. */
  lemma {:induction false} TextsGoRound(b: Board, k: nat)
    requires b.textIndex < |TextOrder| && k <= b.pendingTexts
    ensures TextsDone(b, k).textIndex == (b.textIndex + k) % |TextOrder|
    ensures TextsDone(b, k).pendingTexts == b.pendingTexts - k
    ensures k == |TextOrder| ==> TextsDone(b, k).textIndex == b.textIndex
  {
    if k > 0 {
      TextsGoRound(b, k - 1);
      TextStep(b.textIndex + k - 1);
    }
  }

  /** One more step round the four texts, from any count. */
  lemma TextStep(x: nat)
    ensures (x % |TextOrder| + 1) % |TextOrder| == (x + 1) % |TextOrder|
  {
    assert |TextOrder| == 4;
  }

  /** Every sprite of a group of either segment. */
  function Members(groups: seq<seq<nat>>): (r: seq<nat>)
    ensures forall j, x :: 0 <= j < |groups| && x in groups[j] ==> x in r
    ensures forall x :: x in r ==> exists j :: 0 <= j < |groups| && x in groups[j]
  {
    if |groups| == 0 then []
    else
      var rest := Members(groups[1..]);
      assert forall j :: 1 <= j < |groups| ==> groups[j] == groups[1..][j - 1];
      assert forall x :: x in rest ==> exists j :: 0 <= j < |groups| && x in groups[j] by {
        forall x | x in rest ensures exists j :: 0 <= j < |groups| && x in groups[j] {
          var j :| 0 <= j < |groups[1..]| && x in groups[1..][j];
          assert groups[1..][j] == groups[j + 1];
        }
      }
      groups[0] + rest
  }

  /** `endGame` after its zoom: the sprites of every group are destroyed,
      both misfill maps and both stacks are cleared, the choice and the
      active colour are reset, the total counter returns to zero and the call
      to action is announced. */
  function EndGame(b: Board): (r: Board)
    ensures |r.gems| == |b.gems| && |r.cells| == |b.cells|
    ensures forall g :: 0 <= g < |b.gems| ==> r.gems[g] == b.gems[g].(alive := r.gems[g].alive)
    ensures forall g :: 0 <= g < |b.gems| ==>
              (r.gems[g].alive <==> b.gems[g].alive && g !in Members(b.first.gemGroups) + Members(b.second.gemGroups))
    ensures forall c :: 0 <= c < |b.cells| ==> r.cells[c] == b.cells[c].(alive := r.cells[c].alive)
    ensures forall c :: 0 <= c < |b.cells| ==>
              (r.cells[c].alive <==> b.cells[c].alive && c !in Members(b.first.cellGroups) + Members(b.second.cellGroups))
    ensures forall n :: Seg(r, n).misfilled == [] && Seg(r, n).stack == []
    ensures forall n :: Seg(r, n) == Seg(b, n).(misfilled := [], stack := [])
    ensures r.chosen == [] && r.activeColor == "" && r.correctCounter == 0 && r.adToCta
    ensures r == b.(gems := r.gems, cells := r.cells, first := r.first, second := r.second,
                    chosen := [], activeColor := "", correctCounter := 0, adToCta := true)
  {
    var deadGems := Members(b.first.gemGroups) + Members(b.second.gemGroups);
    var deadCells := Members(b.first.cellGroups) + Members(b.second.cellGroups);
    b.(gems := seq(|b.gems|, g requires 0 <= g < |b.gems| => if g in deadGems then b.gems[g].(alive := false) else b.gems[g]),
       cells := seq(|b.cells|, c requires 0 <= c < |b.cells| => if c in deadCells then b.cells[c].(alive := false) else b.cells[c]),
       first := b.first.(misfilled := [], stack := []),
       second := b.second.(misfilled := [], stack := []),
       chosen := [], activeColor := "", correctCounter := 0, adToCta := true)
  }

  /** The end of the zoom job at `i`: a zoom in enables clicks; a zoom out
      to the other segment makes it active and zooms into it; the zoom out
      that ends the game runs `endGame`'s clean-up. */
  function ZoomDone(b: Board, i: nat): (r: Board)
    ensures i >= |b.zooms| ==> r == b
    ensures i < |b.zooms| && b.zooms[i] == ZoomIn ==> r == b.(zooms := b.zooms[..i] + b.zooms[i + 1..], canClick := true)
    ensures i < |b.zooms| && b.zooms[i].ZoomOutToSwitch? ==>
              r == b.(zooms := b.zooms[..i] + b.zooms[i + 1..] + [ZoomIn], active := Some(b.zooms[i].to))
    ensures i < |b.zooms| && b.zooms[i] == ZoomOutToEnd ==> r == EndGame(b.(zooms := b.zooms[..i] + b.zooms[i + 1..]))
  {
    if i >= |b.zooms| then b
    else
      var rest := b.zooms[..i] + b.zooms[i + 1..];
      match b.zooms[i]
      case ZoomIn => b.(zooms := rest, canClick := true)
      case ZoomOutToSwitch(m) => b.(zooms := rest + [ZoomIn], active := Some(m))
      case ZoomOutToEnd => EndGame(b.(zooms := rest))
  }

  /** Completing a batch touches neither the initial phase nor the active
      segment. */
  lemma BatchIsOneWay(b: Board)
    ensures BatchDone(b).initialPhase == b.initialPhase && BatchDone(b).active == b.active
  {
    match b.batch
    case None =>
    case Some(ToStack(n, moved)) =>
    case Some(ToCells(n, group, correct, copy, moved)) =>
      if |moved| <= |group| {
        CellsDoneIsOneWay(b, n, group, correct, copy, moved);
      }
  }

  lemma CellsDoneIsOneWay(b: Board, n: SegmentNo, group: seq<nat>, correct: string, copy: string, moved: seq<nat>)
    requires |moved| <= |group|
    ensures var r := CellsDone(b, n, group, correct, copy, moved);
            r.initialPhase == b.initialPhase && r.active == b.active
  {
  }

  // ---------------------------------------------------------------------------
  // all events
  // ---------------------------------------------------------------------------

  datatype Event =
    | SegmentClicked(segment: SegmentNo)
    | StackClicked(segment: SegmentNo)
    | GemClicked(gem: nat)
    | CellClicked(cell: nat)
    | BatchFinished
    | TextFinished
    | ZoomFinished(index: nat)

  /** One event delivered to the board. Pointer events on stacks, gems and
      cells reach their handlers only through `canClick` and are refused
      while an animation runs; only a segment click ends the initial phase;
      the active segment changes only on a segment click or the end of a
      zoom; the end of a batch leaves no batch in flight. */
  function Step(b: Board, e: Event): (r: Board)
    ensures (e.StackClicked? || e.GemClicked? || e.CellClicked?) && (!b.canClick || b.animating) ==> r == b
    ensures !e.SegmentClicked? ==> r.initialPhase == b.initialPhase
    ensures !e.SegmentClicked? && !e.ZoomFinished? ==> r.active == b.active
    ensures e.SegmentClicked? && r.active != b.active ==> b.initialPhase && b.active == None && r.active == Some(e.segment)
    ensures e.BatchFinished? ==> r.batch == None
  {
    match e
    case SegmentClicked(n) => SegmentClick(b, n)
    case StackClicked(n) => StackClick(b, n)
    case GemClicked(g) => GemClick(b, g)
    case CellClicked(c) => CellClick(b, c)
    case BatchFinished => BatchIsOneWay(b); BatchDone(b)
    case TextFinished => TextDone(b)
    case ZoomFinished(i) => ZoomDone(b, i)
  }

  /** The board after a sequence of events, delivered first to last: a
      non-empty run is its last event delivered to the run of the others. */
  function Run(b: Board, events: seq<Event>): (r: Board)
    ensures |events| > 0 ==> r == Step(Run(b, events[..|events| - 1]), events[|events| - 1])
    decreases |events|
  {
    if |events| == 0 then b
    else
      var r := Run(Step(b, events[0]), events[1..]);
      assert |events| > 1 ==> events[1..][..|events| - 2] == events[..|events| - 1][1..];
      r
  }
}
