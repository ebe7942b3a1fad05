/** The pure configuration side of the board: cell keys `"x;y"`, the parsing
    of layout positions, the gem colour table, the board slots drawn from the
    layout, and the misfill tables of the two segments. The level data
    (layout blocks, segment positions, misfill position groups) are inputs. */
module BoardLayout {
  import opened Wrappers
  import opened JsText
  import opened JsMap

  // ---------------------------------------------------------------------------
  // keys and positions
  // ---------------------------------------------------------------------------

  /** `getKey(x, y)`: the template `${x};${y}`. */
  function GetKey(x: JsValue, y: JsValue): (k: string)
    ensures Count(k, ';') == 1
  {
    RenderHasNoSemicolon(x);
    RenderHasNoSemicolon(y);
    CountNoSeparator(Render(x), ';');
    CountNoSeparator(Render(y), ';');
    CountAppend(Render(x), ";", ';');
    CountAppend(Render(x) + ";", Render(y), ';');
    Render(x) + ";" + Render(y)
  }

  /** The key of a position given as numbers, as the misfill groups are. */
  function PosKey(p: (int, int)): string {
    GetKey(Number(p.0), Number(p.1))
  }

  lemma RenderHasNoSemicolon(v: JsValue)
    ensures ';' !in Render(v)
  {
    if v.Number? {
      IntToStringHasNo(v.n, ';');
    }
  }

  lemma {:induction false} CountNoSeparator(s: string, c: char)
    requires c !in s
    ensures Count(s, c) == 0
    decreases |s|
  {
    if |s| > 0 {
      assert c !in s[1..];
      CountNoSeparator(s[1..], c);
    }
  }

  lemma {:induction false} CountAppend(a: string, b: string, c: char)
    ensures Count(a + b, c) == Count(a, c) + Count(b, c)
    decreases |a|
  {
    if |a| == 0 {
      assert a + b == b;
    } else {
      assert (a + b)[1..] == a[1..] + b;
      CountAppend(a[1..], b, c);
    }
  }

  /** `const [x, y] = position.split(';').map(Number)` followed by
      `if (Number.isNaN(x) || Number.isNaN(y)) continue`: `None` means the
      position is skipped. A position without `';'` leaves `y` undefined,
      which `Number.isNaN` does not reject. */
  function ParsePosition(s: string): (r: Option<(JsValue, JsValue)>)
    ensures r.Some? ==> r.value.0.Number? && !r.value.1.NaN?
  {
    var parts := Split(s, ';');
    var x := ToNumber(parts[0]);
    var y := if |parts| >= 2 then ToNumber(parts[1]) else Undefined;
    if x == NaN || y == NaN then None else Some((x, y))
  }

  /** The key a position string contributes, or `None` when it is skipped. */
  function PositionKey(s: string): (r: Option<string>)
    ensures r.Some? <==> ParsePosition(s).Some?
  {
    match ParsePosition(s)
    case None => None
    case Some(xy) => Some(GetKey(xy.0, xy.1))
  }

  /** Reading back a key made from two numbers gives the two numbers. */
  lemma KeyRoundTrip(a: int, b: int)
    ensures ParsePosition(GetKey(Number(a), Number(b))) == Some((Number(a), Number(b)))
  {
    var sa := IntToString(a);
    var sb := IntToString(b);
    IntToStringHasNo(a, ';');
    IntToStringHasNo(b, ';');
    assert GetKey(Number(a), Number(b)) == sa + [';'] + sb;
    SplitAtSeparator(sa, sb, ';');
    SplitNoSeparator(sb, ';');
    NumberOfIntToString(a);
    NumberOfIntToString(b);
  }

  /** Distinct number pairs have distinct keys. */
  lemma PosKeyInjective(p: (int, int), q: (int, int))
    requires PosKey(p) == PosKey(q)
    ensures p == q
  {
    KeyRoundTrip(p.0, p.1);
    KeyRoundTrip(q.0, q.1);
  }

  /** A position string that is just a number yields the key `"x;undefined"`,
      which no pair of numbers produces. */
  lemma SingleTokenKey(a: int, p: (int, int))
    ensures PositionKey(IntToString(a)) == Some(GetKey(Number(a), Undefined))
    ensures GetKey(Number(a), Undefined) != PosKey(p)
  {
    SingleTokenParses(a);
    UndefinedKeySkipped(a);
    KeyRoundTrip(p.0, p.1);
  }

  lemma SingleTokenParses(a: int)
    ensures ParsePosition(IntToString(a)) == Some((Number(a), Undefined))
  {
    IntToStringHasNo(a, ';');
    SplitNoSeparator(IntToString(a), ';');
    NumberOfIntToString(a);
  }

  lemma UndefinedKeySkipped(a: int)
    ensures ParsePosition(GetKey(Number(a), Undefined)) == None
  {
    IntToStringHasNo(a, ';');
    var k := GetKey(Number(a), Undefined);
    assert k == IntToString(a) + [';'] + "undefined";
    UndefinedText();
    SplitAtSeparator(IntToString(a), "undefined", ';');
    SplitNoSeparator("undefined", ';');
    assert Split(k, ';') == [IntToString(a), "undefined"];
  }

  lemma UndefinedText()
    ensures ';' !in "undefined" && ToNumber("undefined") == NaN
  {
    assert !IsDigit("undefined"[0]);
  }

  /** A position whose first token, or whose second token when there is one,
      is not a number is skipped. */
  lemma NaNTokenSkipped(s: string)
    ensures ToNumber(Split(s, ';')[0]) == NaN ==> ParsePosition(s) == None
    ensures |Split(s, ';')| >= 2 && ToNumber(Split(s, ';')[1]) == NaN ==> ParsePosition(s) == None
  {
  }

  // ---------------------------------------------------------------------------
  // gem colours and board slots
  // ---------------------------------------------------------------------------

  /** `gemsConfig`, keyed by the decimal text of a colour id. */
  const GemsConfig: OrderedMap<string, string> :=
    [("11", "black"), ("15", "grey"), ("17", "yellow_light"), ("9", "orange"), ("6", "yellow"), ("13", "brown_light")]

  /** `getGemColor(id)`: `gemsConfig[id.toString()] || 'yellow'`. */
  function GetGemColor(id: int): (color: string)
    ensures color != ""
  {
    match Get(GemsConfig, IntToString(id))
    case None => "yellow"
    case Some(c) => if c == "" then "yellow" else c
  }

  /** The six configured ids map to their colours. */
  lemma GemColorKnownIds()
    ensures GetGemColor(11) == "black" && GetGemColor(15) == "grey" && GetGemColor(17) == "yellow_light"
    ensures GetGemColor(9) == "orange" && GetGemColor(6) == "yellow" && GetGemColor(13) == "brown_light"
  {
    ConfiguredIdTexts();
    ConfiguredColors();
    GemColorOf(11, "black");
    GemColorOf(15, "grey");
    GemColorOf(17, "yellow_light");
    GemColorOf(9, "orange");
    GemColorOf(6, "yellow");
    GemColorOf(13, "brown_light");
  }

  lemma GemColorOf(id: int, color: string)
    requires Get(GemsConfig, IntToString(id)) == Some(color) && color != ""
    ensures GetGemColor(id) == color
  {
  }

  lemma ConfiguredIdTexts()
    ensures IntToString(11) == "11" && IntToString(15) == "15" && IntToString(17) == "17"
    ensures IntToString(9) == "9" && IntToString(6) == "6" && IntToString(13) == "13"
  {
    assert NatToString(11) == NatToString(1) + [DigitChar(1)];
    assert NatToString(15) == NatToString(1) + [DigitChar(5)];
    assert NatToString(17) == NatToString(1) + [DigitChar(7)];
    assert NatToString(13) == NatToString(1) + [DigitChar(3)];
  }

  lemma ConfiguredColors()
    ensures Get(GemsConfig, "11") == Some("black") && Get(GemsConfig, "15") == Some("grey")
    ensures Get(GemsConfig, "17") == Some("yellow_light") && Get(GemsConfig, "9") == Some("orange")
    ensures Get(GemsConfig, "6") == Some("yellow") && Get(GemsConfig, "13") == Some("brown_light")
  {
    ConfiguredColor(0);
    ConfiguredColor(1);
    ConfiguredColor(2);
    ConfiguredColor(3);
    ConfiguredColor(4);
    ConfiguredColor(5);
  }

  lemma ConfiguredColor(i: nat)
    requires i < |GemsConfig|
    ensures Get(GemsConfig, GemsConfig[i].0) == Some(GemsConfig[i].1)
  {
    ConfigKeysDistinct();
    GetFirst(GemsConfig, i, GemsConfig[i].0);
  }

  lemma ConfigKeysDistinct()
    ensures forall i, j :: 0 <= i < j < |GemsConfig| ==> GemsConfig[i].0 != GemsConfig[j].0
  {
    assert "11" != "15" && "11" != "17" && "11" != "9" && "11" != "6" && "11" != "13";
    assert "15" != "17" && "15" != "9" && "15" != "6" && "15" != "13";
    assert "17" != "9" && "17" != "6" && "17" != "13" && "9" != "6" && "9" != "13" && "6" != "13";
  }

  /** Every other id, negative ones included, falls back to yellow: the
      decimal text of an id determines the id. */
  lemma GemColorDefault(id: int)
    requires id !in {6, 9, 11, 13, 15, 17}
    ensures GetGemColor(id) == "yellow"
  {
    var s := IntToString(id);
    if Get(GemsConfig, s).Some? {
      NumberOfIntToString(id);
      assert s in Keys(GemsConfig);
      DigitTextValue(s, id);
    }
  }

  lemma DigitTextValue(s: string, id: int)
    requires s in Keys(GemsConfig)
    requires ToNumber(s) == Number(id)
    ensures id in {6, 9, 11, 13, 15, 17}
  {
    GemsConfigKeys();
    assert AllDigits(s) && s[0] != '-' && s[0] != '+';
    assert id == DigitsValue(s);
    if |s| == 1 {
      OneDigitValue(s);
    } else {
      TwoDigitValue(s);
    }
  }

  lemma GemsConfigKeys()
    ensures Keys(GemsConfig) == ["11", "15", "17", "9", "6", "13"]
  {
  }

  lemma OneDigitValue(s: string)
    requires |s| == 1 && AllDigits(s)
    ensures DigitsValue(s) == DigitValue(s[0])
  {
    assert s[..0] == "";
  }

  lemma TwoDigitValue(s: string)
    requires |s| == 2 && AllDigits(s)
    ensures DigitsValue(s) == DigitValue(s[0]) * 10 + DigitValue(s[1])
  {
    OneDigitValue(s[..1]);
  }

  /** A block of the level layout: a position string and a colour id. */
  datatype Block = Block(position: string, color: int)

  /** The key each block contributes (`None` when its position is skipped) and its colour. */
  function BlockEntries(layout: seq<Block>): (r: seq<(Option<string>, string)>)
    ensures |r| == |layout|
    ensures forall i :: 0 <= i < |layout| ==>
              r[i] == (PositionKey(layout[i].position), GetGemColor(layout[i].color))
  {
    if |layout| == 0 then []
    else [(PositionKey(layout[0].position), GetGemColor(layout[0].color))] + BlockEntries(layout[1..])
  }

  /** The key-to-colour part of `boardSlots` built by `drawBoard`. */
  function BoardSlots(layout: seq<Block>): (slots: OrderedMap<string, string>)
    ensures |slots| <= |layout|
    ensures forall k :: Get(slots, k).Some? ==> Get(slots, k).value != ""
  {
    SlotsFrom(BlockEntries(layout))
  }

  /** The `drawBoard` loop over the blocks' keys and colours. */
  function SlotsFrom(entries: seq<(Option<string>, string)>): (slots: OrderedMap<string, string>)
    requires forall i :: 0 <= i < |entries| ==> entries[i].1 != ""
    ensures |slots| <= |entries|
    ensures forall k :: Get(slots, k).Some? ==> Get(slots, k).value != ""
    decreases |entries|
  {
    if |entries| == 0 then []
    else
      var last := entries[|entries| - 1];
      AddSlot(SlotsFrom(entries[..|entries| - 1]), last.0, last.1)
  }

  /** One iteration of `drawBoard`: a block whose position parsed sets its key to its colour. */
  function AddSlot(slots: OrderedMap<string, string>, key: Option<string>, color: string): (r: OrderedMap<string, string>)
    ensures |r| <= |slots| + 1
    ensures forall k :: k in Keys(r) <==> k in Keys(slots) || key == Some(k)
    ensures forall k :: Get(r, k) == if key == Some(k) then Some(color) else Get(slots, k)
  {
    match key
    case None => slots
    case Some(k) =>
      var r := Set(slots, k, color);
      SetShape(slots, k, color);
      forall k' ensures k' in Keys(r) <==> k' in Keys(slots) || k' == k {
        SetKeys(slots, k, color, k');
      }
      r
  }

  predicate NamesKey(entries: seq<(Option<string>, string)>, k: string) {
    exists i :: 0 <= i < |entries| && entries[i].0 == Some(k)
  }

  lemma {:induction false} SlotsFromKeys(entries: seq<(Option<string>, string)>, k: string)
    requires forall i :: 0 <= i < |entries| ==> entries[i].1 != ""
    ensures k in Keys(SlotsFrom(entries)) <==> NamesKey(entries, k)
    decreases |entries|
  {
    if |entries| > 0 {
      var n := |entries| - 1;
      var prefix := entries[..n];
      var last := entries[n];
      var prev := SlotsFrom(prefix);
      assert SlotsFrom(entries) == AddSlot(prev, last.0, last.1);
      if last.0 == Some(k) {
        assert entries[n].0 == Some(k);
      } else {
        SlotsFromKeys(prefix, k);
        assert k in Keys(SlotsFrom(entries)) <==> k in Keys(prev);
        NamesKeyOfPrefix(entries, k);
      }
    }
  }

  lemma NamesKeyOfPrefix(entries: seq<(Option<string>, string)>, k: string)
    requires |entries| > 0 && entries[|entries| - 1].0 != Some(k)
    ensures NamesKey(entries, k) <==> NamesKey(entries[..|entries| - 1], k)
  {
    var prefix := entries[..|entries| - 1];
    if NamesKey(entries, k) {
      var i :| 0 <= i < |entries| && entries[i].0 == Some(k);
      assert prefix[i] == entries[i];
    }
    if NamesKey(prefix, k) {
      var i :| 0 <= i < |prefix| && prefix[i].0 == Some(k);
      assert prefix[i] == entries[i];
    }
  }

  /** A key is on the board exactly when some block's position parses to it;
      blocks whose position does not parse add nothing. */
  lemma BoardSlotsKeys(layout: seq<Block>, k: string)
    ensures k in Keys(BoardSlots(layout)) <==>
            exists i :: 0 <= i < |layout| && PositionKey(layout[i].position) == Some(k)
  {
    var entries := BlockEntries(layout);
    SlotsFromKeys(entries, k);
    if exists i :: 0 <= i < |layout| && PositionKey(layout[i].position) == Some(k) {
      var i :| 0 <= i < |layout| && PositionKey(layout[i].position) == Some(k);
      assert entries[i].0 == Some(k);
    }
  }

  // ---------------------------------------------------------------------------
  // misfill tables
  // ---------------------------------------------------------------------------

  /** One row of `getMisfilledMap1/2`: the colours shared by a group of misfilled positions. */
  datatype MisfillSpec = MisfillSpec(background: string, wrong: string, correct: string)

  /** The colours of groups `MISFILLED1` to `MISFILLED7`. */
  const Segment1Specs: seq<MisfillSpec> := [
    MisfillSpec("black", "orange", "black"),
    MisfillSpec("yellow", "grey", "yellow"),
    MisfillSpec("white", "yellow", "white"),
    MisfillSpec("yellow", "orange", "yellow"),
    MisfillSpec("grey", "yellow", "grey"),
    MisfillSpec("orange", "black", "orange"),
    MisfillSpec("orange", "white", "orange")
  ]

  /** The colours of groups `MISFILLED8` to `MISFILLED14`. */
  const Segment2Specs: seq<MisfillSpec> := [
    MisfillSpec("grey", "brown_light", "grey"),
    MisfillSpec("black", "yellow", "black"),
    MisfillSpec("grey", "orange", "grey"),
    MisfillSpec("brown_light", "orange", "brown_light"),
    MisfillSpec("orange", "black", "orange"),
    MisfillSpec("orange", "grey", "orange"),
    MisfillSpec("yellow", "grey", "yellow")
  ]

  /** In both tables a group's background is its correct colour and differs from its wrong colour. */
  lemma SpecsAreConsistent()
    ensures forall s | s in Segment1Specs + Segment2Specs :: s.background == s.correct && s.wrong != s.correct
  {
  }

  /** `map.set(key, spec)` for every key in turn. */
  function SetAll(m: OrderedMap<string, MisfillSpec>, keys: seq<string>, v: MisfillSpec): (r: OrderedMap<string, MisfillSpec>)
    ensures forall k :: Get(r, k) == if k in keys then Some(v) else Get(m, k)
    decreases |keys|
  {
    if |keys| == 0 then m
    else
      var r := SetAll(Set(m, keys[0], v), keys[1..], v);
      assert forall k :: k in keys <==> k == keys[0] || k in keys[1..];
      r
  }

  function PosKeys(group: seq<(int, int)>): (r: seq<string>)
    ensures |r| == |group|
    ensures forall i :: 0 <= i < |group| ==> r[i] == PosKey(group[i])
  {
    if |group| == 0 then [] else [PosKey(group[0])] + PosKeys(group[1..])
  }

  /** `getMisfilledMap1/2`: every position of every group, in order, is set
      to its group's colours, so a later group overwrites an earlier one. */
  function MisfillTable(specs: seq<MisfillSpec>, groups: seq<seq<(int, int)>>): (t: OrderedMap<string, MisfillSpec>)
    requires |specs| == |groups|
    ensures forall k :: Get(t, k).Some? ==> Get(t, k).value in specs
    decreases |groups|
  {
    if |groups| == 0 then []
    else
      var n := |groups| - 1;
      var t := SetAll(MisfillTable(specs[..n], groups[..n]), PosKeys(groups[n]), specs[n]);
      assert forall x :: x in specs[..n] ==> x in specs;
      t
  }

  /** The table after its last group: that group's keys get its colours,
      every other key keeps what the earlier groups gave it. */
  lemma TableStep(specs: seq<MisfillSpec>, groups: seq<seq<(int, int)>>, k: string)
    requires |specs| == |groups| > 0
    ensures var n := |groups| - 1;
            Get(MisfillTable(specs, groups), k) ==
              if k in PosKeys(groups[n]) then Some(specs[n]) else Get(MisfillTable(specs[..n], groups[..n]), k)
  {
  }

  /** A position that no group holds is absent from the table. */
  lemma {:induction false} MisfillTableAbsent(specs: seq<MisfillSpec>, groups: seq<seq<(int, int)>>, p: (int, int))
    requires |specs| == |groups|
    requires forall j :: 0 <= j < |groups| ==> p !in groups[j]
    ensures Get(MisfillTable(specs, groups), PosKey(p)) == None
    decreases |groups|
  {
    if |groups| > 0 {
      var n := |groups| - 1;
      forall j | 0 <= j < n ensures p !in groups[..n][j] {
        assert groups[..n][j] == groups[j];
      }
      MisfillTableAbsent(specs[..n], groups[..n], p);
      NotInGroupKeys(groups[n], p);
      TableStep(specs, groups, PosKey(p));
    }
  }

  lemma NotInGroupKeys(group: seq<(int, int)>, p: (int, int))
    requires p !in group
    ensures PosKey(p) !in PosKeys(group)
  {
    var keys := PosKeys(group);
    if PosKey(p) in keys {
      var i :| 0 <= i < |keys| && keys[i] == PosKey(p);
      PosKeyInjective(group[i], p);
      assert false;
    }
  }

  /** A position is looked up with the colours of the last group holding it:
      a later group overwrites an earlier one. */
  lemma {:induction false} MisfillTableLastGroup(specs: seq<MisfillSpec>, groups: seq<seq<(int, int)>>, p: (int, int), j: nat)
    requires |specs| == |groups|
    requires j < |groups| && p in groups[j]
    requires forall j' :: j < j' < |groups| ==> p !in groups[j']
    ensures Get(MisfillTable(specs, groups), PosKey(p)) == Some(specs[j])
    decreases |groups|
  {
    var n := |groups| - 1;
    if j == n {
      InLastGroup(specs, groups, p);
    } else {
      NotInLastGroup(specs, groups, p);
      assert groups[..n][j] == groups[j] && specs[..n][j] == specs[j];
      forall j' | j < j' < n ensures p !in groups[..n][j'] {
        assert groups[..n][j'] == groups[j'];
      }
      MisfillTableLastGroup(specs[..n], groups[..n], p, j);
    }
  }

  lemma InLastGroup(specs: seq<MisfillSpec>, groups: seq<seq<(int, int)>>, p: (int, int))
    requires |specs| == |groups| > 0 && p in groups[|groups| - 1]
    ensures Get(MisfillTable(specs, groups), PosKey(p)) == Some(specs[|groups| - 1])
  {
    var n := |groups| - 1;
    var i :| 0 <= i < |groups[n]| && groups[n][i] == p;
    assert PosKeys(groups[n])[i] == PosKey(p);
    TableStep(specs, groups, PosKey(p));
  }

  lemma NotInLastGroup(specs: seq<MisfillSpec>, groups: seq<seq<(int, int)>>, p: (int, int))
    requires |specs| == |groups| > 0 && p !in groups[|groups| - 1]
    ensures var n := |groups| - 1;
            Get(MisfillTable(specs, groups), PosKey(p)) == Get(MisfillTable(specs[..n], groups[..n]), PosKey(p))
  {
    NotInGroupKeys(groups[|groups| - 1], p);
    TableStep(specs, groups, PosKey(p));
  }

  /** Every key of a table comes from a position of one of its groups. */
  lemma {:induction false} MisfillTableKeys(specs: seq<MisfillSpec>, groups: seq<seq<(int, int)>>, k: string)
    requires |specs| == |groups|
    requires Get(MisfillTable(specs, groups), k).Some?
    ensures exists j, p :: 0 <= j < |groups| && p in groups[j] && k == PosKey(p)
    decreases |groups|
  {
    var n := |groups| - 1;
    var keys := PosKeys(groups[n]);
    if k in keys {
      var i :| 0 <= i < |keys| && keys[i] == k;
      assert groups[n][i] in groups[n];
    } else {
      TableStep(specs, groups, k);
      MisfillTableKeys(specs[..n], groups[..n], k);
      var j, p :| 0 <= j < n && p in groups[..n][j] && k == PosKey(p);
      assert groups[..n][j] == groups[j];
    }
  }
}
