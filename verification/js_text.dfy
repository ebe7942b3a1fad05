/** The JavaScript string, number and array primitives that the board and
    the asset helpers lean on, stated over `seq<char>`:
    `Number(token)`, the template rendering of a number, `lastIndexOf`,
    `slice` (strings and arrays alike), `split` and `join` on a one-character
    separator, and `Array.prototype.indexOf`. */
module JsText {

  /** A JavaScript value as far as the model needs one: an integral number,
      `NaN`, or `undefined` (what destructuring yields past the end of an
      array). */
  datatype JsValue = Number(n: int) | NaN | Undefined

  predicate IsDigit(c: char) {
    '0' <= c <= '9'
  }

  predicate AllDigits(s: string) {
    forall i :: 0 <= i < |s| ==> IsDigit(s[i])
  }

  function DigitValue(c: char): (d: nat)
    requires IsDigit(c)
    ensures d < 10
  {
    c as int - '0' as int
  }

  function DigitChar(d: nat): (c: char)
    requires d < 10
    ensures IsDigit(c) && DigitValue(c) == d
  {
    ('0' as int + d) as char
  }

  /** Number of occurrences of `c` in `s`. */
  function Count(s: string, c: char): nat {
    if |s| == 0 then 0 else (if s[0] == c then 1 else 0) + Count(s[1..], c)
  }

  // ---------------------------------------------------------------------------
  // Numbers and their decimal text
  // ---------------------------------------------------------------------------

  /** Decimal text of a natural number, without leading zeros. */
  function NatToString(n: nat): (r: string)
    ensures |r| >= 1 && AllDigits(r)
    ensures r[0] == '0' ==> n == 0
    decreases n
  {
    if n < 10 then [DigitChar(n)] else NatToString(n / 10) + [DigitChar(n % 10)]
  }

  /** The value of a run of decimal digits (leading zeros allowed, as `Number` allows them). */
  function DigitsValue(s: string): nat
    requires AllDigits(s)
  {
    if |s| == 0 then 0 else DigitsValue(s[..|s| - 1]) * 10 + DigitValue(s[|s| - 1])
  }

  /** The template rendering `${n}` of an integral number. */
  function IntToString(n: int): (r: string)
    ensures |r| >= 1
    ensures n >= 0 ==> AllDigits(r)
    ensures n < 0 ==> r[0] == '-' && AllDigits(r[1..])
  {
    if n < 0 then "-" + NatToString(-n) else NatToString(n)
  }

  /** `Number(token)` restricted to the literals a board position can hold:
      the empty string is 0, an optionally signed run of digits is its value,
      anything else is NaN. */
  function ToNumber(tok: string): (v: JsValue)
    ensures v != Undefined
    ensures v.Number? <==> tok == "" || AllDigits(tok) || (|tok| > 1 && tok[0] in "+-" && AllDigits(tok[1..]))
    ensures v.Number? && tok != "" ==> tok[|tok| - 1] in "0123456789"
    ensures v.Number? && tok != "" && tok[0] != '-' ==> v.n >= 0
    ensures v.Number? && tok != "" && tok[0] == '-' ==> v.n <= 0
  {
    if tok == "" then Number(0)
    else if tok[0] == '-' && |tok| > 1 && AllDigits(tok[1..]) then Number(0 - DigitsValue(tok[1..]))
    else if tok[0] == '+' && |tok| > 1 && AllDigits(tok[1..]) then Number(DigitsValue(tok[1..]))
    else if AllDigits(tok) then Number(DigitsValue(tok))
    else NaN
  }

  /** The template rendering `${v}` of a value. */
  function Render(v: JsValue): string {
    match v
    case Number(n) => IntToString(n)
    case NaN => "NaN"
    case Undefined => "undefined"
  }

  lemma {:induction false} DigitsOfNatToString(n: nat)
    ensures DigitsValue(NatToString(n)) == n
    decreases n
  {
    var s := NatToString(n);
    if n >= 10 {
      DigitsOfNatToString(n / 10);
      assert s[..|s| - 1] == NatToString(n / 10);
    }
  }

  /** Reading back the rendering of an integer gives the integer. */
  lemma NumberOfIntToString(n: int)
    ensures ToNumber(IntToString(n)) == Number(n)
  {
    if n < 0 {
      NumberOfNegative(n);
    } else {
      DigitsOfNatToString(n);
      var s := NatToString(n);
      assert s[0] != '-' && s[0] != '+';
    }
  }

  lemma NumberOfNegative(n: int)
    requires n < 0
    ensures ToNumber(IntToString(n)) == Number(n)
  {
    var t := NatToString(-n);
    DigitsOfNatToString(-n);
    var s := IntToString(n);
    assert s == "-" + t;
    assert s[1..] == t;
    assert s[0] == '-' && |s| > 1 && AllDigits(s[1..]);
  }

  /** The rendering of a number never contains a character that is not a
      sign or a digit, so no separator character can occur in it. */
  lemma IntToStringHasNo(n: int, c: char)
    requires c != '-' && !IsDigit(c)
    ensures c !in IntToString(n)
  {
    var r := IntToString(n);
    forall i | 0 <= i < |r|
      ensures r[i] != c
    {
      if n < 0 && i > 0 {
        assert r[i] == r[1..][i - 1];
      }
    }
  }

  // ---------------------------------------------------------------------------
  // lastIndexOf, slice, indexOf
  // ---------------------------------------------------------------------------

  /** `s.lastIndexOf(c)` for a one-character search string. */
  function LastIndexOf(s: string, c: char): (r: int)
    ensures -1 <= r < |s|
    ensures r >= 0 ==> s[r] == c
    ensures forall i :: r < i < |s| ==> s[i] != c
  {
    if |s| == 0 then -1
    else if s[|s| - 1] == c then |s| - 1
    else LastIndexOf(s[..|s| - 1], c)
  }

  /** How `slice` turns an argument into an index: negative values count from
      the end, and everything is clamped to `[0, len]`. */
  function SliceIndex(i: int, len: nat): (r: nat)
    ensures r <= len
    ensures 0 <= i <= len ==> r == i
    ensures i < 0 && len + i >= 0 ==> r == len + i
  {
    if i < 0 then (if len + i < 0 then 0 else len + i) else if i > len then len else i
  }

  /** `s.slice(start, end)` for strings and arrays. */
  function Slice<T>(s: seq<T>, start: int, end: int): (r: seq<T>)
    ensures |r| <= |s|
    ensures SliceIndex(start, |s|) < SliceIndex(end, |s|) ==>
              r == s[SliceIndex(start, |s|)..SliceIndex(end, |s|)]
    ensures SliceIndex(end, |s|) <= SliceIndex(start, |s|) ==> r == []
  {
    var from := SliceIndex(start, |s|);
    var to := SliceIndex(end, |s|);
    if from < to then s[from..to] else []
  }

  /** `xs.indexOf(x)`: the first position holding `x`, or -1. */
  function IndexOf<T(==)>(xs: seq<T>, x: T): (r: int)
    ensures -1 <= r < |xs|
    ensures r >= 0 ==> xs[r] == x && x !in xs[..r]
    ensures r == -1 <==> x !in xs
  {
    if |xs| == 0 then -1
    else if xs[0] == x then 0
    else var k := IndexOf(xs[1..], x); if k < 0 then -1 else k + 1
  }

  // ---------------------------------------------------------------------------
  // split and join on a one-character separator
  // ---------------------------------------------------------------------------

  /** `s.split(c)`: the pieces between occurrences of `c`; the empty string
      splits into one empty piece. */
  function Split(s: string, c: char): (r: seq<string>)
    ensures |r| == Count(s, c) + 1
    ensures forall i :: 0 <= i < |r| ==> c !in r[i]
    decreases |s|
  {
    if |s| == 0 then [""]
    else
      var rest := Split(s[1..], c);
      if s[0] == c then [""] + rest else [[s[0]] + rest[0]] + rest[1..]
  }

  /** `parts.join(c)`. */
  function Join(parts: seq<string>, c: char): string {
    if |parts| == 0 then ""
    else if |parts| == 1 then parts[0]
    else parts[0] + [c] + Join(parts[1..], c)
  }

  /** Joining the pieces of a split restores the string. */
  lemma {:induction false} JoinSplit(s: string, c: char)
    ensures Join(Split(s, c), c) == s
    decreases |s|
  {
    if |s| > 0 {
      var rest := Split(s[1..], c);
      JoinSplit(s[1..], c);
      if s[0] == c {
        assert ([""] + rest)[1..] == rest;
      } else {
        var r := [[s[0]] + rest[0]] + rest[1..];
        if |rest| > 1 {
          assert r[1..] == rest[1..];
          assert Join(rest, c) == rest[0] + [c] + Join(rest[1..], c);
        }
      }
    }
  }

  lemma {:induction false} SplitNoSeparator(p: string, c: char)
    requires c !in p
    ensures Split(p, c) == [p]
    decreases |p|
  {
    if |p| > 0 {
      assert c !in p[1..];
      SplitNoSeparator(p[1..], c);
      assert [p[0]] + p[1..] == p;
    }
  }

  lemma {:induction false} SplitAtSeparator(p: string, t: string, c: char)
    requires c !in p
    ensures Split(p + [c] + t, c) == [p] + Split(t, c)
    decreases |p|
  {
    if |p| == 0 {
      assert (p + [c] + t)[1..] == t;
    } else {
      assert c !in p[1..];
      SplitAtSeparator(p[1..], t, c);
      assert (p + [c] + t)[1..] == p[1..] + [c] + t;
      assert [p[0]] + p[1..] == p;
    }
  }

  /** Splitting a join of separator-free pieces gives the pieces back. */
  lemma {:induction false} SplitJoin(parts: seq<string>, c: char)
    requires |parts| >= 1
    requires forall i :: 0 <= i < |parts| ==> c !in parts[i]
    ensures Split(Join(parts, c), c) == parts
    decreases |parts|
  {
    if |parts| == 1 {
      SplitNoSeparator(parts[0], c);
    } else {
      SplitJoin(parts[1..], c);
      SplitAtSeparator(parts[0], Join(parts[1..], c), c);
    }
  }

  /** Joining a concatenation of two non-empty lists puts one separator between the two joins. */
  lemma {:induction false} JoinAppend(a: seq<string>, b: seq<string>, c: char)
    requires |a| >= 1 && |b| >= 1
    ensures Join(a + b, c) == Join(a, c) + [c] + Join(b, c)
    decreases |a|
  {
    if |a| == 1 {
      assert (a + b)[1..] == b;
    } else {
      JoinAppend(a[1..], b, c);
      assert (a + b)[1..] == a[1..] + b;
    }
  }
}
