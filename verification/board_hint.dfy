/** The hint: the two points the hand moves between, chosen from the board
    state. The colour of a gem is read back from its texture name with the
    pattern `gem_([^_]+)(?:_wrong)?\.png`; the reader is a parameter of the
    hint so that the pattern as written and the reading it evidently
    intends can both be plugged in. */
module BoardHint {
  import opened Wrappers
  import opened JsText
  import opened JsMap
  import opened BoardLayout
  import opened BoardState

  // ---------------------------------------------------------------------------
  // reading a colour back from a texture name
  // ---------------------------------------------------------------------------

  predicate StartsWith(s: string, p: string) {
    |p| <= |s| && s[..|p|] == p
  }

  /** The pattern's tail `(?:_wrong)?\.png` matches at `j`. */
  predicate TailAt(t: string, j: nat) {
    j <= |t| && (StartsWith(t[j..], "_wrong.png") || StartsWith(t[j..], ".png"))
  }

  /** How far `[^_]+` can reach from `q`: the end of the run of characters
      other than `_`. */
  function RunEnd(t: string, q: nat): (e: nat)
    requires q <= |t|
    ensures q <= e <= |t|
    ensures forall i :: q <= i < e ==> t[i] != '_'
    ensures e < |t| ==> t[e] == '_'
    decreases |t| - q
  {
    if q == |t| || t[q] == '_' then q else RunEnd(t, q + 1)
  }

  /** The greedy group backing off: the longest end `j` in `(q, e]` at
      which the tail matches. */
  function GroupEnd(t: string, q: nat, e: nat): (r: Option<nat>)
    requires q <= e
    ensures r.Some? ==> q < r.value <= e && TailAt(t, r.value)
    ensures r.Some? ==> forall j :: r.value < j <= e ==> !TailAt(t, j)
    ensures r.None? <==> forall j :: q < j <= e ==> !TailAt(t, j)
    decreases e - q
  {
    if e == q then None
    else if TailAt(t, e) then Some(e)
    else GroupEnd(t, q, e - 1)
  }

  /** The first group of a match of the pattern starting at `p`. */
  function MatchAt(t: string, p: nat): (r: Option<string>)
    requires p <= |t|
    ensures r.Some? ==> r.value != [] && '_' !in r.value
  {
    if StartsWith(t[p..], "gem_") then
      var q := p + 4;
      var e := RunEnd(t, q);
      match GroupEnd(t, q, e)
      case None => None
      case Some(j) =>
        assert forall i :: 0 <= i < j - q ==> t[q..j][i] == t[q + i];
        Some(t[q..j])
    else None
  }

  /** The leftmost match at or after `p`. */
  function FirstMatch(t: string, p: nat): (r: Option<string>)
    requires p <= |t|
    ensures r.Some? ==> r.value != [] && '_' !in r.value
    decreases |t| - p
  {
    match MatchAt(t, p)
    case Some(c) => Some(c)
    case None => if p == |t| then None else FirstMatch(t, p + 1)
  }

  /** `getGemColorFromTexture` as written: the group of the leftmost match
      of the unanchored pattern, or `null`. It never yields a colour with an
      underscore. */
  function TextureColor(t: string): (r: Option<string>)
    ensures r.Some? ==> r.value != [] && '_' !in r.value
  {
    FirstMatch(t, 0)
  }

  /** The frame of a colour without underscores reads back as that colour. */
  lemma TextureColorOfFrame(c: string)
    requires c != [] && '_' !in c
    ensures TextureColor(GemFrame(c)) == Some(c)
  {
    var t := GemFrame(c);
    assert t[0..] == t;
    assert t[..4] == "gem_";
    assert forall i :: 4 <= i < |t| ==> t[i] != '_' by {
      forall i | 4 <= i < |t| ensures t[i] != '_' {
        if i < 4 + |c| {
          assert t[i] == c[i - 4];
        }
      }
    }
    var j := 4 + |c|;
    assert t[j..] == ".png";
    assert TailAt(t, j);
    assert RunEnd(t, 4) == |t|;
    assert GroupEnd(t, 4, |t|) == Some(j);
    assert t[4..j] == c;
  }

  /** The `_wrong` frame of a colour without underscores reads back as that colour. */
  lemma TextureColorOfWrongFrame(c: string)
    requires c != [] && '_' !in c
    ensures TextureColor("gem_" + c + "_wrong.png") == Some(c)
  {
    var t := "gem_" + c + "_wrong.png";
    var j := 4 + |c|;
    assert t[0..] == t;
    assert t[..4] == "gem_";
    assert forall i :: 4 <= i < j ==> t[i] != '_' by {
      forall i | 4 <= i < j ensures t[i] != '_' {
        assert t[i] == c[i - 4];
      }
    }
    assert t[j] == '_';
    assert RunEnd(t, 4) == j;
    assert t[j..] == "_wrong.png";
    assert GroupEnd(t, 4, j) == Some(j);
    assert t[4..j] == c;
  }

  /** What the pattern is evidently meant to read: the colour between
      `gem_` and `.png`, without a trailing `_wrong`, underscores allowed. */
  function FrameColor(t: string): (r: Option<string>)
    ensures r.Some? ==> r.value != []
  {
    if |t| >= 8 && t[..4] == "gem_" && t[|t| - 4..] == ".png" then
      var body := t[4..|t| - 4];
      var color := if |body| > 6 && body[|body| - 6..] == "_wrong" then body[..|body| - 6] else body;
      if color == [] then None else Some(color)
    else None
  }

  predicate EndsWithWrong(c: string) {
    |c| > 6 && c[|c| - 6..] == "_wrong"
  }

  /** Every frame the board gives a gem reads back as its colour. */
  lemma FrameColorOfFrame(c: string)
    requires c != [] && !EndsWithWrong(c)
    ensures FrameColor(GemFrame(c)) == Some(c)
  {
    var t := GemFrame(c);
    assert t[..4] == "gem_" && t[|t| - 4..] == ".png";
    assert t[4..|t| - 4] == c;
  }

  lemma FrameColorOfWrongFrame(c: string)
    requires c != []
    ensures FrameColor("gem_" + c + "_wrong.png") == Some(c)
  {
    var t := "gem_" + c + "_wrong.png";
    assert t[..4] == "gem_" && t[|t| - 4..] == ".png";
    var body := t[4..|t| - 4];
    assert body == c + "_wrong";
    assert body[|body| - 6..] == "_wrong";
    assert body[..|body| - 6] == c;
  }

  /** The two readings agree on every frame of a colour without underscores. */
  lemma ReadersAgree(c: string)
    requires c != [] && '_' !in c
    ensures TextureColor(GemFrame(c)) == FrameColor(GemFrame(c))
  {
    TextureColorOfFrame(c);
    if |c| > 6 {
      assert c[|c| - 6..][0] == c[|c| - 6];
    }
    FrameColorOfFrame(c);
  }

  /** The gem colour table holds `brown_light` and `yellow_light`, and the
      pattern as written cannot read either back from its frame. */
  lemma UnderscoreColorsUnreadable(c: string)
    requires c in Values(GemsConfig)
    requires c == "brown_light" || c == "yellow_light"
    ensures TextureColor(GemFrame(c)) != Some(c)
    ensures FrameColor(GemFrame(c)) == Some(c)
  {
    UnderscoreColorShape(c);
    FrameColorOfFrame(c);
  }

  lemma UnderscoreColorShape(c: string)
    requires c == "brown_light" || c == "yellow_light"
    ensures c != [] && '_' in c && !EndsWithWrong(c)
  {
    assert c[|c| - 6] == '_';
    var tail := c[|c| - 6..];
    assert tail[1] == c[|c| - 5] != 'w';
  }

  lemma UnderscoreColorsConfigured()
    ensures "brown_light" in Values(GemsConfig) && "yellow_light" in Values(GemsConfig)
  {
    assert Values(GemsConfig)[5] == "brown_light";
    assert Values(GemsConfig)[2] == "yellow_light";
  }

  // ---------------------------------------------------------------------------
  // the hint
  // ---------------------------------------------------------------------------

  /** `isGemInteractive`; a gem the board does not know is not interactive. */
  predicate Interactive(b: Board, g: nat) {
    g < |b.gems| && b.gems[g].interactive
  }

  function Texture(b: Board, g: nat): string {
    if g < |b.gems| then b.gems[g].texture else ""
  }

  function GemPoint(b: Board, g: nat): Point {
    if g < |b.gems| then b.gems[g].at else Origin
  }

  /** The choosing branch's `isEmpty`: no gem, a gem in the stack, or a gem
      that ignores the pointer. */
  predicate LooksEmpty(b: Board, stack: OrderedMap<nat, nat>, e: Misfill) {
    e.gem.None? || e.gem.value in Values(stack) || !Interactive(b, e.gem.value)
  }

  /** The hint while gems are chosen: the first entry that looks empty and
      expects the active colour, or else the stack's first slot. */
  function ChoosingHint(b: Board, n: SegmentNo): (r: (Point, Point))
    ensures r.0 == r.1
    ensures var m := Seg(b, n).misfilled;
            r.0 == StackSlot(n, 0) <==>
              forall i :: 0 <= i < |m| ==> !(LooksEmpty(b, Seg(b, n).stack, m[i].1) && m[i].1.correct == b.activeColor)
    ensures var m := Seg(b, n).misfilled;
            r.0 != StackSlot(n, 0) ==>
              exists i :: 0 <= i < |m| && r.0 == CellCenter(m[i].0) &&
                (LooksEmpty(b, Seg(b, n).stack, m[i].1) && m[i].1.correct == b.activeColor)
  {
    var s := Seg(b, n);
    match FindEntry(s.misfilled, (k: string, e: Misfill) => LooksEmpty(b, s.stack, e) && e.correct == b.activeColor)
    case Some(i) => (CellCenter(s.misfilled[i].0), CellCenter(s.misfilled[i].0))
    case None => (StackSlot(n, 0), StackSlot(n, 0))
  }

  /** `stackSlots.length - gemsInStack - 1`: every stack entry holds a gem. */
  function FreeSlot(s: Segment): int {
    StackSlotCount() - |s.stack| - 1
  }

  /** The first loop's test of the unfilled-stack branch: the entry's gem is
      interactive and reads as the entry's wrong colour. */
  predicate WrongGem(b: Board, colorOf: string -> Option<string>, e: Misfill) {
    e.gem.Some? && Interactive(b, e.gem.value) && colorOf(Texture(b, e.gem.value)) == Some(e.wrong)
  }

  /** Entry `i` is the first, in map order, to pass the first loop's test. */
  predicate FirstWrongGem(b: Board, colorOf: string -> Option<string>, m: OrderedMap<string, Misfill>, i: int) {
    0 <= i < |m| && WrongGem(b, colorOf, m[i].1) && forall i' :: 0 <= i' < i ==> !WrongGem(b, colorOf, m[i'].1)
  }

  predicate NoWrongGem(b: Board, colorOf: string -> Option<string>, m: OrderedMap<string, Misfill>) {
    forall i :: 0 <= i < |m| ==> !WrongGem(b, colorOf, m[i].1)
  }

  /** The first loop of the unfilled-stack branch. */
  function WrongGemEntry(b: Board, n: SegmentNo, colorOf: string -> Option<string>): (r: Option<nat>)
    ensures r.Some? ==> FirstWrongGem(b, colorOf, Seg(b, n).misfilled, r.value)
    ensures r.None? <==> NoWrongGem(b, colorOf, Seg(b, n).misfilled)
  {
    FindEntry(Seg(b, n).misfilled, (k: string, e: Misfill) => WrongGem(b, colorOf, e))
  }

  /** The second loop's test: the stack entry's key, as text, is a key of the
      misfill map, and its gem is interactive and reads as that entry's wrong
      colour. */
  predicate StackKeyHit(b: Board, s: Segment, colorOf: string -> Option<string>, e: (nat, nat)) {
    Interactive(b, e.1) && Get(s.misfilled, IntToString(e.0)).Some?
    && colorOf(Texture(b, e.1)) == Some(Get(s.misfilled, IntToString(e.0)).value.wrong)
  }

  /** Stack entry `j` is the first, in map order, to pass the second loop's test. */
  predicate FirstStackKeyHit(b: Board, s: Segment, colorOf: string -> Option<string>, j: int) {
    0 <= j < |s.stack| && StackKeyHit(b, s, colorOf, s.stack[j])
    && forall j' :: 0 <= j' < j ==> !StackKeyHit(b, s, colorOf, s.stack[j'])
  }

  predicate NoStackKeyHit(b: Board, s: Segment, colorOf: string -> Option<string>) {
    forall j :: 0 <= j < |s.stack| ==> !StackKeyHit(b, s, colorOf, s.stack[j])
  }

  /** The second loop of the unfilled-stack branch. */
  function StackKeyEntry(b: Board, n: SegmentNo, colorOf: string -> Option<string>): (r: Option<nat>)
    ensures r.Some? ==> FirstStackKeyHit(b, Seg(b, n), colorOf, r.value)
    ensures r.None? <==> NoStackKeyHit(b, Seg(b, n), colorOf)
  {
    var s := Seg(b, n);
    FindEntry(s.stack, (k: nat, g: nat) => StackKeyHit(b, s, colorOf, (k, g)))
  }

  /** The unfilled-stack branch: point from a gem that should go to the
      stack to the stack's next free slot. The first loop's first hit wins;
      the second loop is consulted only when the first finds nothing. */
  function ToStackHint(b: Board, n: SegmentNo, colorOf: string -> Option<string>): (r: Option<(Point, Point)>)
    ensures r.Some? ==> 0 <= FreeSlot(Seg(b, n)) && r.value.1 == StackSlot(n, FreeSlot(Seg(b, n)))
    ensures FreeSlot(Seg(b, n)) < 0 ==> r.None?
    ensures var s := Seg(b, n);
            forall i :: 0 <= FreeSlot(s) && FirstWrongGem(b, colorOf, s.misfilled, i) ==>
              r == Some((CellCenter(s.misfilled[i].0), StackSlot(n, FreeSlot(s))))
    ensures var s := Seg(b, n);
            forall j :: 0 <= FreeSlot(s) && NoWrongGem(b, colorOf, s.misfilled) && FirstStackKeyHit(b, s, colorOf, j) ==>
              r == Some((CellCenter(IntToString(s.stack[j].0)), StackSlot(n, FreeSlot(s))))
    ensures r.None? <==>
              FreeSlot(Seg(b, n)) < 0 || (NoWrongGem(b, colorOf, Seg(b, n).misfilled) && NoStackKeyHit(b, Seg(b, n), colorOf))
  {
    var s := Seg(b, n);
    var slot := FreeSlot(s);
    if 0 <= slot < StackSlotCount() then
      match WrongGemEntry(b, n, colorOf)
      case Some(i) => Some((CellCenter(s.misfilled[i].0), StackSlot(n, slot)))
      case None =>
        match StackKeyEntry(b, n, colorOf)
        case Some(i) => Some((CellCenter(IntToString(s.stack[i].0)), StackSlot(n, slot)))
        case None => None
    else None
  }

  /** The second loop looks misfill entries up by a stack key written as a
      number, which has no `;`; misfill keys all have one, so the loop never
      finds anything. */
  lemma StackKeyLoopIsDead(b: Board, n: SegmentNo, colorOf: string -> Option<string>)
    requires CellKeys(Seg(b, n).misfilled)
    ensures StackKeyEntry(b, n, colorOf) == None
  {
    var s := Seg(b, n);
    var r := StackKeyEntry(b, n, colorOf);
    if r.Some? {
      var k := s.stack[r.value].0;
      IntToStringHasNo(k, ';');
    }
  }

  /** A stack gem that can supply colour `needed`: interactive and reading as it. */
  predicate StackSource(b: Board, colorOf: string -> Option<string>, needed: string, g: nat) {
    Interactive(b, g) && colorOf(Texture(b, g)) == Some(needed)
  }

  predicate FirstStackSource(b: Board, colorOf: string -> Option<string>, needed: string, st: OrderedMap<nat, nat>, i: int) {
    0 <= i < |st| && StackSource(b, colorOf, needed, st[i].1)
    && forall i' :: 0 <= i' < i ==> !StackSource(b, colorOf, needed, st[i'].1)
  }

  predicate NoStackSource(b: Board, colorOf: string -> Option<string>, needed: string, st: OrderedMap<nat, nat>) {
    forall i :: 0 <= i < |st| ==> !StackSource(b, colorOf, needed, st[i].1)
  }

  /** A misfill entry whose gem can supply colour `needed`: interactive, not
      in the stack, reading as `needed`, and sitting where `needed` is not
      the correct colour. */
  predicate BoardSource(b: Board, s: Segment, colorOf: string -> Option<string>, needed: string, e: Misfill) {
    e.gem.Some? && Interactive(b, e.gem.value) && e.gem.value !in Values(s.stack)
    && colorOf(Texture(b, e.gem.value)) == Some(needed) && needed != e.correct
  }

  predicate FirstBoardSource(b: Board, s: Segment, colorOf: string -> Option<string>, needed: string, j: int) {
    0 <= j < |s.misfilled| && BoardSource(b, s, colorOf, needed, s.misfilled[j].1)
    && forall j' :: 0 <= j' < j ==> !BoardSource(b, s, colorOf, needed, s.misfilled[j'].1)
  }

  predicate NoBoardSource(b: Board, s: Segment, colorOf: string -> Option<string>, needed: string) {
    forall j :: 0 <= j < |s.misfilled| ==> !BoardSource(b, s, colorOf, needed, s.misfilled[j].1)
  }

  /** The first loop of the source search. */
  function StackSourceEntry(b: Board, n: SegmentNo, needed: string, colorOf: string -> Option<string>): (r: Option<nat>)
    ensures r.Some? ==> FirstStackSource(b, colorOf, needed, Seg(b, n).stack, r.value)
    ensures r.None? <==> NoStackSource(b, colorOf, needed, Seg(b, n).stack)
  {
    FindEntry(Seg(b, n).stack, (k: nat, g: nat) => StackSource(b, colorOf, needed, g))
  }

  /** The second loop of the source search. */
  function BoardSourceEntry(b: Board, n: SegmentNo, needed: string, colorOf: string -> Option<string>): (r: Option<nat>)
    ensures r.Some? ==> FirstBoardSource(b, Seg(b, n), colorOf, needed, r.value)
    ensures r.None? <==> NoBoardSource(b, Seg(b, n), colorOf, needed)
  {
    var s := Seg(b, n);
    FindEntry(s.misfilled, (k: string, e: Misfill) => BoardSource(b, s, colorOf, needed, e))
  }

  /** Where a gem of colour `needed` can come from: the first stack gem that
      can supply it; only when there is none, the first misfill entry whose
      gem can; otherwise nowhere. */
  function SourceFor(b: Board, n: SegmentNo, needed: string, colorOf: string -> Option<string>): (r: Option<Point>)
    ensures var st := Seg(b, n).stack;
            forall i :: FirstStackSource(b, colorOf, needed, st, i) ==> r == Some(GemPoint(b, st[i].1))
    ensures var s := Seg(b, n);
            forall j :: NoStackSource(b, colorOf, needed, s.stack) && FirstBoardSource(b, s, colorOf, needed, j) ==>
              r == Some(CellCenter(s.misfilled[j].0))
    ensures r.None? <==> NoStackSource(b, colorOf, needed, Seg(b, n).stack) && NoBoardSource(b, Seg(b, n), colorOf, needed)
  {
    var s := Seg(b, n);
    match StackSourceEntry(b, n, needed, colorOf)
    case Some(i) => Some(GemPoint(b, s.stack[i].1))
    case None =>
      match BoardSourceEntry(b, n, needed, colorOf)
      case Some(j) => Some(CellCenter(s.misfilled[j].0))
      case None => None
  }

  /** The filled-stack branch's test: an entry without a gem for which a
      source of its correct colour exists. */
  predicate Needy(b: Board, n: SegmentNo, colorOf: string -> Option<string>, e: Misfill) {
    e.gem.None? && SourceFor(b, n, e.correct, colorOf).Some?
  }

  predicate FirstNeedy(b: Board, n: SegmentNo, colorOf: string -> Option<string>, i: int) {
    var m := Seg(b, n).misfilled;
    0 <= i < |m| && Needy(b, n, colorOf, m[i].1) && forall i' :: 0 <= i' < i ==> !Needy(b, n, colorOf, m[i'].1)
  }

  predicate NoNeedy(b: Board, n: SegmentNo, colorOf: string -> Option<string>) {
    var m := Seg(b, n).misfilled;
    forall i :: 0 <= i < |m| ==> !Needy(b, n, colorOf, m[i].1)
  }

  /** The loop of the filled-stack branch. */
  function NeedyEntry(b: Board, n: SegmentNo, colorOf: string -> Option<string>): (r: Option<nat>)
    ensures r.Some? ==> FirstNeedy(b, n, colorOf, r.value)
    ensures r.None? <==> NoNeedy(b, n, colorOf)
  {
    FindEntry(Seg(b, n).misfilled, (k: string, e: Misfill) => Needy(b, n, colorOf, e))
  }

  /** The filled-stack branch: the first entry without a gem for which a
      source of its correct colour exists, pointing from the source to it. */
  function FromStackHint(b: Board, n: SegmentNo, colorOf: string -> Option<string>): (r: Option<(Point, Point)>)
    ensures var m := Seg(b, n).misfilled;
            r.Some? ==>
              exists i :: 0 <= i < |m| && m[i].1.gem.None? && r.value.1 == CellCenter(m[i].0) &&
                SourceFor(b, n, m[i].1.correct, colorOf) == Some(r.value.0)
    ensures var m := Seg(b, n).misfilled;
            forall i :: FirstNeedy(b, n, colorOf, i) ==>
              r == Some((SourceFor(b, n, m[i].1.correct, colorOf).value, CellCenter(m[i].0)))
    ensures r.None? <==> NoNeedy(b, n, colorOf)
  {
    var s := Seg(b, n);
    match NeedyEntry(b, n, colorOf)
    case Some(i) => Some((SourceFor(b, n, s.misfilled[i].1.correct, colorOf).value, CellCenter(s.misfilled[i].0)))
    case None => None
  }

  /** The order of the rules of `getHintPositions`, each stated over the
      first entry, in map order, that meets it: nothing during the initial
      selection; while gems are chosen, where they should go; with an
      unfilled stack that has a free slot, a gem of the first loop, else one
      of the second, moved to that slot; with a filled stack, the source for
      the first empty entry that has one, moved onto it; otherwise the
      origin twice. */
  predicate HintRules(b: Board, colorOf: string -> Option<string>, r: (Point, Point)) {
    if b.initialPhase || b.active.None? then r == (Origin, Origin)
    else
      var n := b.active.value;
      var s := Seg(b, n);
      var slot := FreeSlot(s);
      if |b.chosen| > 0 && b.activeColor != "" then r == ChoosingHint(b, n)
      else if !s.filled then
        && (forall i :: 0 <= i < |s.misfilled| && 0 <= slot && FirstWrongGem(b, colorOf, s.misfilled, i) ==>
              r == (CellCenter(s.misfilled[i].0), StackSlot(n, slot)))
        && (forall j :: 0 <= j < |s.stack| && 0 <= slot && NoWrongGem(b, colorOf, s.misfilled) && FirstStackKeyHit(b, s, colorOf, j) ==>
              r == (CellCenter(IntToString(s.stack[j].0)), StackSlot(n, slot)))
        && (slot < 0 || (NoWrongGem(b, colorOf, s.misfilled) && NoStackKeyHit(b, s, colorOf)) ==> r == (Origin, Origin))
      else
        && (forall i :: 0 <= i < |s.misfilled| && FirstNeedy(b, n, colorOf, i) ==>
              r == (SourceFor(b, n, s.misfilled[i].1.correct, colorOf).value, CellCenter(s.misfilled[i].0)))
        && (NoNeedy(b, n, colorOf) ==> r == (Origin, Origin))
  }

  /** `getHintPositions` with a given colour reader. */
  function Hint(b: Board, colorOf: string -> Option<string>): (r: (Point, Point))
    ensures b.initialPhase || b.active.None? ==> r == (Origin, Origin)
    ensures !b.initialPhase && b.active.Some? && |b.chosen| > 0 && b.activeColor != "" ==> r == ChoosingHint(b, b.active.value)
    ensures HintRules(b, colorOf, r)
  {
    if b.initialPhase || b.active.None? then (Origin, Origin)
    else
      var n := b.active.value;
      if |b.chosen| > 0 && b.activeColor != "" then ChoosingHint(b, n)
      else
        var found := if !Seg(b, n).filled then ToStackHint(b, n, colorOf) else FromStackHint(b, n, colorOf);
        match found
        case Some(pq) => pq
        case None => (Origin, Origin)
  }

  /** The rules leave no freedom: the one pair that follows them is the hint. */
  lemma RulesDetermineHint(b: Board, colorOf: string -> Option<string>, r: (Point, Point))
    requires HintRules(b, colorOf, r)
    ensures r == Hint(b, colorOf)
  {
    if !b.initialPhase && b.active.Some? && !(|b.chosen| > 0 && b.activeColor != "") {
      var n := b.active.value;
      var s := Seg(b, n);
      if !s.filled {
        if 0 <= FreeSlot(s) {
          match WrongGemEntry(b, n, colorOf)
          case Some(i) => assert FirstWrongGem(b, colorOf, s.misfilled, i);
          case None =>
            match StackKeyEntry(b, n, colorOf)
            case Some(j) => assert FirstStackKeyHit(b, s, colorOf, j);
            case None =>
        }
      } else {
        match NeedyEntry(b, n, colorOf)
        case Some(i) => assert FirstNeedy(b, n, colorOf, i);
        case None =>
      }
    }
  }

  /** `getHintPositions` as written, reading colours through the texture
      pattern. It follows the hint's rules; in the unfilled-stack branch it
      is the origin twice or a move from an entry whose gem the pattern
      reads as the entry's wrong colour, which therefore has no underscore,
      to the next free slot. */
  function HintPositions(b: Board): (r: (Point, Point))
    ensures HintRules(b, TextureColor, r)
    ensures b.initialPhase || b.active.None? ==> r == (Origin, Origin)
    ensures !b.initialPhase && b.active.Some? && |b.chosen| > 0 && b.activeColor != "" ==> r.0 == r.1
    ensures !b.initialPhase && b.active.Some? && !(|b.chosen| > 0 && b.activeColor != "") &&
            !Seg(b, b.active.value).filled && CellKeys(Seg(b, b.active.value).misfilled) ==>
              var n := b.active.value;
              var m := Seg(b, n).misfilled;
              r == (Origin, Origin) || (
                r.1 == StackSlot(n, FreeSlot(Seg(b, n))) &&
                exists i :: 0 <= i < |m| && r.0 == CellCenter(m[i].0) && '_' !in m[i].1.wrong)
  {
    if !b.initialPhase && b.active.Some? && !(|b.chosen| > 0 && b.activeColor != "") &&
       !Seg(b, b.active.value).filled && CellKeys(Seg(b, b.active.value).misfilled)
    then
      UnfilledStackHint(b, TextureColor);
      Hint(b, TextureColor)
    else
      Hint(b, TextureColor)
  }

  /** The hint with the colour reading the pattern evidently intends. */
  function IntendedHintPositions(b: Board): (Point, Point) {
    Hint(b, FrameColor)
  }

  /** Outside the choosing branch, with an unfilled stack whose next free
      slot exists, the hint points from a misfill gem that reads as its
      entry's wrong colour to that slot, or it is the origin twice. */
  lemma UnfilledStackHint(b: Board, colorOf: string -> Option<string>)
    requires !b.initialPhase && b.active.Some? && !(|b.chosen| > 0 && b.activeColor != "")
    requires !Seg(b, b.active.value).filled && CellKeys(Seg(b, b.active.value).misfilled)
    ensures var n := b.active.value;
            var m := Seg(b, n).misfilled;
            var r := Hint(b, colorOf);
            r == (Origin, Origin) || (
              r.1 == StackSlot(n, FreeSlot(Seg(b, n))) &&
              exists i :: 0 <= i < |m| && r.0 == CellCenter(m[i].0) && m[i].1.gem.Some?
                && Interactive(b, m[i].1.gem.value) && colorOf(Texture(b, m[i].1.gem.value)) == Some(m[i].1.wrong))
  {
    StackKeyLoopIsDead(b, b.active.value, colorOf);
  }

  /** As written, an entry whose wrong colour has an underscore never draws
      the hint towards the stack: its gem's frame cannot read as that colour. */
  lemma UnderscoreEntryNeverHinted(b: Board, n: SegmentNo)
    requires WrongGemEntry(b, n, TextureColor).Some?
    ensures '_' !in Seg(b, n).misfilled[WrongGemEntry(b, n, TextureColor).value].1.wrong
  {
  }

  /** With the intended reading, an entry holding a live interactive gem that
      still wears its wrong colour's frame always draws the hint towards a
      free stack slot. */
  lemma IntendedHintFindsWrongGem(b: Board, n: SegmentNo, i: nat)
    requires i < |Seg(b, n).misfilled|
    requires var e := Seg(b, n).misfilled[i].1;
             e.gem.Some? && Interactive(b, e.gem.value) && Texture(b, e.gem.value) == GemFrame(e.wrong)
             && e.wrong != [] && !EndsWithWrong(e.wrong)
    requires 0 <= FreeSlot(Seg(b, n))
    ensures ToStackHint(b, n, FrameColor).Some?
  {
    FrameColorOfFrame(Seg(b, n).misfilled[i].1.wrong);
  }

  /** A board of the second segment whose only entry `0;0` holds a
      `brown_light` gem (the first misfill group's wrong colour there) and
      whose stack is empty. */
  function UnderscoreBoard(): (b: Board)
    ensures |b.second.misfilled| == 1
    ensures b.second.misfilled[0].1 == Misfill(0, Segment2Specs[0].wrong, Segment2Specs[0].correct, Some(0))
  {
    var entry := Misfill(0, "brown_light", "grey", Some(0));
    var s := Segment([("0;0", entry)], [[0]], [[0]], [], false, 0, false);
    var empty := Segment([], [], [], [], false, 0, false);
    Board(empty, s,
          [Gem(Second, GemFrame("brown_light"), "brown_light", true, true, CellCenter("0;0"))],
          [Cell(Second, "grey", true, true)],
          [], "", false, true, false, Some(Second), 0, 0, 0, None, [], false)
  }

  lemma UnderscoreBoardKeys()
    ensures CellKeys(UnderscoreBoard().second.misfilled)
  {
    var m := UnderscoreBoard().second.misfilled;
    assert Keys(m) == ["0;0"];
    assert "0;0"[1] == ';';
  }

  /** As written, the hint on that board is the origin twice. */
  lemma UnderscoreBoardAsWritten()
    ensures HintPositions(UnderscoreBoard()) == (Origin, Origin)
  {
    var b := UnderscoreBoard();
    assert "brown_light"[5] == '_';
    assert TextureColor(Texture(b, 0)) != Some("brown_light");
    assert WrongGemEntry(b, Second, TextureColor) == None;
    UnderscoreBoardKeys();
    StackKeyLoopIsDead(b, Second, TextureColor);
  }

  /** With the intended reading, the hint on that board points from the
      `brown_light` gem's cell to the stack's last slot. */
  lemma UnderscoreBoardIntended()
    ensures IntendedHintPositions(UnderscoreBoard()) == (CellCenter("0;0"), StackSlot(Second, 21))
  {
    var b := UnderscoreBoard();
    assert "brown_light"[|"brown_light"| - 5] != 'w';
    FrameColorOfFrame("brown_light");
    assert FrameColor(Texture(b, 0)) == Some("brown_light");
    assert WrongGemEntry(b, Second, FrameColor) == Some(0);
  }
}
