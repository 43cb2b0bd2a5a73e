/**
 * The keyboard prototype src/pintu.ts: nine rects in a flat list, a map from each
 * slot number to its grid position and back (keyed by the JSON text of the key),
 * a Fisher-Yates shuffle of the list, and the w/a/s/d keys that move the target
 * slot (the hole) to a neighbouring slot by swapping the two rects.
 */
module RectPintu {
  import opened Wrappers
  import opened Seqs
  import opened JsText

  const ROW_COUNT: nat := 3
  const COL_COUNT: nat := 3
  /** The number of rects `initial` creates. */
  const CELLS: nat := ROW_COUNT * COL_COUNT

  /** `Position`: a grid cell, column `x` and row `y`. */
  datatype Position = Position(x: int, y: int)

  /** `Rect`: the label (the home slot as text) and the colour. */
  datatype Rect = Rect(id: string, color: string)

  /** `Payload`: what the map stores, a number or a position. Numbers are integers here. */
  datatype Payload = Num(n: int) | At(p: Position)

  // ---------------------------------------------------------------------------
  // PintuMap
  // ---------------------------------------------------------------------------

  /** `JSON.stringify` of a position: `{"x":X,"y":Y}`. */
  function PositionText(p: Position): (s: string)
    ensures |s| >= 1 && s[0] == '{'
  {
    "{\"x\":" + (IntStr(p.x) + (",\"y\":" + (IntStr(p.y) + "}")))
  }

  /** `JSON.stringify` of a payload: the numeral of a number, the object text of a position. */
  function Stringify(k: Payload): (s: string)
    ensures |s| >= 1
  {
    match k
    case Num(n) => IntStr(n)
    case At(p) => PositionText(p)
  }

  /** The object text of a position can be read back. */
  lemma PositionTextInjective(p: Position, q: Position)
    requires PositionText(p) == PositionText(q)
    ensures p == q
  {
    var t1 := ",\"y\":" + (IntStr(p.y) + "}");
    var t2 := ",\"y\":" + (IntStr(q.y) + "}");
    assert IntStr(p.x) + t1 == PositionText(p)[5..] == PositionText(q)[5..] == IntStr(q.x) + t2;
    IntStrPlain(p.x);
    IntStrPlain(q.x);
    CommaSplit(IntStr(p.x), t1, IntStr(q.x), t2);
    IntStrInjective(p.x, q.x);
    var e1, e2 := IntStr(p.y) + "}", IntStr(q.y) + "}";
    assert e1 == t1[5..] == t2[5..] == e2;
    assert IntStr(p.y) == e1[..|e1| - 1] == e2[..|e2| - 1] == IntStr(q.y);
    IntStrInjective(p.y, q.y);
  }

  /** Different payloads have different JSON texts, so the map tells keys apart by value. */
  lemma StringifyInjective(a: Payload, b: Payload)
    requires Stringify(a) == Stringify(b)
    ensures a == b
  {
    if a.Num? && b.Num? {
      IntStrInjective(a.n, b.n);
    } else if a.At? && b.At? {
      PositionTextInjective(a.p, b.p);
    }
  }

  /** What `get` finds under the key's JSON text, `undefined` (None) when nothing is stored. */
  function Find(m: map<string, Payload>, key: Payload): Option<Payload>
  {
    if Stringify(key) in m then Some(m[Stringify(key)]) else None
  }

  /** After a `set`, `get` finds the new value for an equal key and the old answer for any other. */
  lemma FindAfterStore(m: map<string, Payload>, key: Payload, value: Payload, k: Payload)
    ensures Find(m[Stringify(key) := value], k) == if k == key then Some(value) else Find(m, k)
  {
    if Stringify(k) == Stringify(key) {
      StringifyInjective(k, key);
    }
  }

  /** `PintuMap`: a dictionary from JSON texts to payloads. */
  class PintuMap {
    var result: map<string, Payload>

    constructor()
      ensures result == map[]
    {
      result := map[];
    }

    /** `set`: store the value under the key's JSON text. */
    method Set(key: Payload, value: Payload)
      modifies this
      ensures result == old(result)[Stringify(key) := value]
    {
      result := result[Stringify(key) := value];
    }

    /** `get`: the value stored under the key's JSON text, if any. */
    method Get(key: Payload) returns (v: Option<Payload>)
      ensures v == Find(result, key)
    {
      var getKey := Stringify(key);
      if getKey in result {
        return Some(result[getKey]);
      }
      return None;
    }
  }

  // ---------------------------------------------------------------------------
  // The slot <-> position records
  // ---------------------------------------------------------------------------

  /** The grid position of slot `no`: `no = y * ROW_COUNT + x`. */
  function PosOf(no: int): Position
  {
    Position(no % ROW_COUNT, no / ROW_COUNT)
  }

  /** The slot of a position. */
  function SlotOf(p: Position): int
  {
    p.y * ROW_COUNT + p.x
  }

  predicate OnGrid(p: Position)
  {
    0 <= p.x < COL_COUNT && 0 <= p.y < ROW_COUNT
  }

  /** The two `set`s `initial` makes for slot `no`: its position to the slot, then the slot to its position. */
  function Record(m: map<string, Payload>, no: int): map<string, Payload>
  {
    m[Stringify(At(PosOf(no))) := Num(no)][Stringify(Num(no)) := At(PosOf(no))]
  }

  /** After recording slot `no`, `get` finds its position and its slot, and any other key as before. */
  lemma FindAfterRecord(m: map<string, Payload>, no: int, k: Payload)
    ensures Find(Record(m, no), k) ==
      if k == Num(no) then Some(At(PosOf(no)))
      else if k == At(PosOf(no)) then Some(Num(no))
      else Find(m, k)
  {
    FindAfterStore(m, At(PosOf(no)), Num(no), k);
    FindAfterStore(m[Stringify(At(PosOf(no))) := Num(no)], Num(no), At(PosOf(no)), k);
  }

  /** The map after `initial` has recorded slots 0..n-1. */
  function Recorded(base: map<string, Payload>, n: nat): map<string, Payload>
  {
    if n == 0 then base else Record(Recorded(base, n - 1), n - 1)
  }

  /**
   * Starting from an empty map, recording slots 0..n-1 maps each of those slots to
   * its position and each of those positions back to its slot, and nothing else.
   */
  lemma {:induction false} RecordedLookup(n: nat, k: Payload)
    ensures Find(Recorded(map[], n), k) ==
      match k
      case Num(v) => if 0 <= v < n then Some(At(PosOf(v))) else None
      case At(p) =>
        if 0 <= p.x < ROW_COUNT && 0 <= p.y && SlotOf(p) < n then Some(Num(SlotOf(p))) else None
  {
    if n > 0 {
      var no := n - 1;
      RecordedLookup(no, k);
      FindAfterRecord(Recorded(map[], no), no, k);
      if k.At? {
        PosOfExactly(no, k.p);
      }
    }
  }

  /** A slot's position is the one column 0..2, row >= 0 position whose slot it is. */
  lemma PosOfExactly(no: nat, p: Position)
    ensures p == PosOf(no) <==> 0 <= p.x < ROW_COUNT && 0 <= p.y && SlotOf(p) == no
  {
    DivModSplit(no, ROW_COUNT);
    if 0 <= p.x < ROW_COUNT && 0 <= p.y && SlotOf(p) == no {
      DivModUnique(no, ROW_COUNT, p.y, p.x);
    }
  }

  /** What the records of the 3-by-3 grid give for a key: slot 0..8 to its position and back. */
  function Expected(k: Payload): Option<Payload>
  {
    match k
    case Num(v) => if 0 <= v < CELLS then Some(At(PosOf(v))) else None
    case At(p) => if OnGrid(p) then Some(Num(SlotOf(p))) else None
  }

  /** `get` on the map answers every key as the records of the grid do. */
  ghost predicate GridRecords(m: map<string, Payload>)
  {
    forall k :: Find(m, k) == Expected(k)
  }

  /** After `initial` (n = 9 slots recorded from an empty map), the map holds the grid's records. */
  lemma RecordedGrid(n: nat)
    requires n == CELLS
    ensures GridRecords(Recorded(map[], n))
  {
    forall k
      ensures Find(Recorded(map[], n), k) == Expected(k)
    {
      RecordedLookup(n, k);
    }
  }

  /** The position of a slot 0..8 is on the grid and leads back to the slot. */
  lemma SlotOnGrid(no: int)
    requires 0 <= no < CELLS
    ensures OnGrid(PosOf(no)) && SlotOf(PosOf(no)) == no
  {
    DivModSplit(no, ROW_COUNT);
  }

  // ---------------------------------------------------------------------------
  // shuffleArray
  // ---------------------------------------------------------------------------

  /** The in-place exchange through `temp`: entry i takes entry j's value and j takes i's. */
  function Swap<T>(s: seq<T>, i: nat, j: nat): (r: seq<T>)
    requires i < |s| && j < |s|
    ensures |r| == |s| && r[i] == s[j] && r[j] == s[i]
    ensures forall k :: 0 <= k < |s| && k != i && k != j ==> r[k] == s[k]
  {
    s[i := s[j]][j := s[i]]
  }

  /** A swap only rearranges the list. */
  lemma SwapMultiset<T>(s: seq<T>, i: nat, j: nat)
    requires i < |s| && j < |s|
    ensures multiset(Swap(s, i, j)) == multiset(s)
  {
    if i != j {
      var s1 := s[i := s[j]];
      assert s1[j] == s[j];
      UpdateMultiset(s, i, s[j]);
      UpdateMultiset(s1, j, s[i]);
      ExchangeBack(multiset(s), multiset(s1), multiset(Swap(s, i, j)), s[i], s[j]);
    }
  }

  /** What `Math.floor(Math.random() * (i + 1))` may give at each step: any j <= i. */
  predicate ValidPicks(picks: seq<nat>, n: nat)
  {
    |picks| == n && forall i :: 0 <= i < n ==> picks[i] <= i
  }

  /** The swaps of `shuffleArray` at i, i - 1, ..., 1, with `picks[i]` as the j of step i. */
  function FisherYates<T>(s: seq<T>, picks: seq<nat>, i: int): (r: seq<T>)
    requires ValidPicks(picks, |s|) && i < |s|
    ensures |r| == |s|
    decreases i
  {
    if i <= 0 then s else FisherYates(Swap(s, i, picks[i]), picks, i - 1)
  }

  /** The whole shuffle, from the last index down. */
  function Shuffled<T>(s: seq<T>, picks: seq<nat>): (r: seq<T>)
    requires ValidPicks(picks, |s|)
  {
    FisherYates(s, picks, |s| - 1)
  }

  /** The shuffle only rearranges the list. */
  lemma {:induction false} FisherYatesMultiset<T>(s: seq<T>, picks: seq<nat>, i: int)
    requires ValidPicks(picks, |s|) && i < |s|
    ensures multiset(FisherYates(s, picks, i)) == multiset(s)
    decreases i
  {
    if i > 0 {
      SwapMultiset(s, i, picks[i]);
      FisherYatesMultiset(Swap(s, i, picks[i]), picks, i - 1);
    }
  }

  /** `shuffleArray`: the descending loop of swaps, in place. */
  method ShuffleArray<T>(a: array<T>, picks: seq<nat>)
    requires ValidPicks(picks, a.Length)
    modifies a
    ensures a[..] == Shuffled(old(a[..]), picks)
  {
    var i := a.Length - 1;
    while i > 0
      invariant -1 <= i < a.Length
      invariant FisherYates(a[..], picks, i) == Shuffled(old(a[..]), picks)
    {
      var j := picks[i];
      ghost var before := a[..];
      var temp := a[i];
      a[i] := a[j];
      a[j] := temp;
      assert a[..] == Swap(before, i, j);
      i := i - 1;
    }
  }

  // ---------------------------------------------------------------------------
  // The rects and the win check
  // ---------------------------------------------------------------------------

  /** The rects `initial` pushes: slot `no` gets label `no.toString()` and colour `palette[no]`. */
  function InitialRects(palette: seq<string>): (rs: seq<Rect>)
    requires |palette| == CELLS
    ensures |rs| == CELLS
  {
    seq(CELLS, no requires 0 <= no < CELLS => Rect(Dec(no), palette[no]))
  }

  /** Pushing the rect of slot `no` extends the first `no` initial rects by one. */
  lemma InitialRectsGrow(palette: seq<string>, pushed: seq<Rect>, no: nat)
    requires |palette| == CELLS && no < CELLS && pushed == InitialRects(palette)[..no]
    ensures pushed + [Rect(Dec(no), palette[no])] == InitialRects(palette)[..no + 1]
  {
  }

  function RectId(r: Rect): string
  {
    r.id
  }

  /** The labels "0", "1", ..., in slot order. */
  function Labels(n: nat): seq<string>
  {
    Image(Dec, Range(n))
  }

  /** The labels of `rs` are "0", "1", ..., each once, in some order. */
  ghost predicate LabelsOnce(rs: seq<Rect>)
  {
    multiset(Image(RectId, rs)) == multiset(Labels(|rs|))
  }

  /** The rects `initial` pushes carry the labels in slot order. */
  lemma InitialLabels(palette: seq<string>)
    requires |palette| == CELLS
    ensures Image(RectId, InitialRects(palette)) == Labels(|InitialRects(palette)|)
  {
    var rs := InitialRects(palette);
    var n := |rs|;
    assert forall k :: 0 <= k < n ==> Image(RectId, rs)[k] == Labels(n)[k];
  }

  /** After `initial`, the labels are "0".."8", each once, in shuffled order. */
  lemma InitialIsPermutation(palette: seq<string>, picks: seq<nat>)
    requires |palette| == CELLS && ValidPicks(picks, CELLS)
    ensures LabelsOnce(Shuffled(InitialRects(palette), picks))
  {
    var rs := InitialRects(palette);
    FisherYatesMultiset(rs, picks, |rs| - 1);
    ImageMultiset(RectId, Shuffled(rs, picks), rs);
    InitialLabels(palette);
  }

  /** Every rect from slot `i` on carries the label of its slot (`every` from index i). */
  function EveryInPlace(rs: seq<Rect>, i: nat): (b: bool)
    decreases |rs| - i
    ensures b <==> forall k :: i <= k < |rs| ==> rs[k].id == Dec(k)
  {
    if i >= |rs| then true else rs[i].id == Dec(i) && EveryInPlace(rs, i + 1)
  }

  /** Exchanging two rects keeps each label once. */
  lemma SwapKeepsLabels(rs: seq<Rect>, a: nat, b: nat)
    requires a < |rs| && b < |rs| && LabelsOnce(rs)
    ensures LabelsOnce(Swap(rs, a, b))
  {
    SwapMultiset(rs, a, b);
    ImageMultiset(RectId, Swap(rs, a, b), rs);
  }

  /** In a list of distinct slots in order, moving the hole to another slot breaks the order. */
  lemma SwapBreaksOrder(rs: seq<Rect>, a: nat, b: nat)
    requires a < |rs| && b < |rs| && a != b && EveryInPlace(rs, 0)
    ensures !EveryInPlace(Swap(rs, a, b), 0)
  {
    var r := Swap(rs, a, b);
    if r[a].id == Dec(a) {
      DecInjective(a, b);
    }
  }

  // ---------------------------------------------------------------------------
  // The keyboard moves
  // ---------------------------------------------------------------------------

  /**
   * The target position after a key: w up, s down, a left, d right; any other key
   * stays. A step moves by one cell along one axis, and only the four keys move.
   */
  function Step(p: Position, key: string): (q: Position)
    ensures q != p <==> key in {"w", "a", "s", "d"}
    ensures q == p || (q.x == p.x && (q.y == p.y - 1 || q.y == p.y + 1)) ||
                      (q.y == p.y && (q.x == p.x - 1 || q.x == p.x + 1))
  {
    if key == "w" then Position(p.x, p.y - 1)
    else if key == "d" then Position(p.x + 1, p.y)
    else if key == "s" then Position(p.x, p.y + 1)
    else if key == "a" then Position(p.x - 1, p.y)
    else p
  }

  function Opposite(key: string): string
  {
    if key == "w" then "s" else if key == "s" then "w"
    else if key == "a" then "d" else if key == "d" then "a"
    else key
  }

  /**
   * The opposite key undoes a step, and a key that is not w/a/s/d leaves the
   * position where it was.
   */
  lemma StepBack(p: Position, key: string)
    ensures Step(Step(p, key), Opposite(key)) == p
    ensures key !in {"w", "a", "s", "d"} ==> Step(p, key) == p
  {
  }

  /** Swapping the same two slots again restores the list. */
  lemma SwapTwice<T>(s: seq<T>, i: nat, j: nat)
    requires i < |s| && j < |s|
    ensures Swap(Swap(s, i, j), j, i) == s
  {
  }

  /**
   * A key move can be taken back: when a key moves the target from slot t to an on-grid
   * slot u, the opposite key at u leads back to slot t, and exchanging the two slots
   * again restores the rects.
   */
  lemma KeyMoveUndo(rs: seq<Rect>, t: int, key: string)
    requires |rs| == CELLS && 0 <= t < CELLS && OnGrid(Step(PosOf(t), key))
    ensures var u := SlotOf(Step(PosOf(t), key));
      0 <= u < CELLS && Step(PosOf(u), Opposite(key)) == PosOf(t) &&
      OnGrid(PosOf(t)) && SlotOf(PosOf(t)) == t &&
      Swap(Swap(rs, t, u), u, t) == rs
  {
    var q := Step(PosOf(t), key);
    var u := SlotOf(q);
    PosOfExactly(u, q);
    SlotOnGrid(t);
    StepBack(PosOf(t), key);
    SwapTwice(rs, t, u);
  }

  /**
   * `Pintu` of src/pintu.ts: the rects in slot order, the target slot (not drawn),
   * the slot picked by the mouse, and the records map. The canvas, the mouse
   * coordinates and the drawing are not modelled.
   */
  class Pintu {
    var rects: array<Rect>
    var targetIndex: int
    var moveIndex: int
    var recordsMap: PintuMap

    /**
     * Nine rects whose labels are "0".."8" each once, a target slot among them, and
     * the records of the 3-by-3 grid.
     */
    ghost predicate Valid()
      reads this, recordsMap, rects
    {
      rects.Length == CELLS && 0 <= targetIndex < rects.Length &&
      GridRecords(recordsMap.result) &&
      LabelsOnce(rects[..])
    }

    /** The constructor: target slot 0, no slot picked, then `initial`. */
    constructor(palette: seq<string>, picks: seq<nat>)
      requires |palette| == CELLS && ValidPicks(picks, CELLS)
      ensures Valid() && fresh(rects) && fresh(recordsMap)
      ensures targetIndex == 0 && moveIndex == -1
      ensures rects[..] == Shuffled(InitialRects(palette), picks)
    {
      rects := new Rect[0];
      targetIndex := 0;
      moveIndex := -1;
      var records := new PintuMap();
      recordsMap := records;
      new;
      Initial(palette, picks);
      RecordedGrid(rects.Length);
      InitialIsPermutation(palette, picks);
    }

    /**
     * `initial`: push the rects of slots 0..8 in row-major order, recording each
     * slot's position and back, then shuffle the list and keep it.
     */
    method Initial(palette: seq<string>, picks: seq<nat>)
      requires |palette| == CELLS && ValidPicks(picks, CELLS)
      modifies this, recordsMap
      ensures fresh(rects) && rects[..] == Shuffled(InitialRects(palette), picks)
      ensures recordsMap == old(recordsMap)
      ensures recordsMap.result == Recorded(old(recordsMap.result), rects.Length)
      ensures targetIndex == old(targetIndex) && moveIndex == old(moveIndex)
    {
      var pushed := PushAndRecord(palette);
      var list := new Rect[CELLS](k requires 0 <= k < CELLS => pushed[k]);
      assert list[..] == pushed;
      ShuffleArray(list, picks);
      rects := list;
    }

    /** The loops of `initial`: the rects in slot order, each slot recorded as it is pushed. */
    method PushAndRecord(palette: seq<string>) returns (pushed: seq<Rect>)
      requires |palette| == CELLS
      modifies recordsMap
      ensures pushed == InitialRects(palette)
      ensures recordsMap.result == Recorded(old(recordsMap.result), CELLS)
    {
      pushed := [];
      for i := 0 to ROW_COUNT
        invariant |pushed| == i * ROW_COUNT
        invariant pushed == InitialRects(palette)[..|pushed|]
        invariant recordsMap.result == Recorded(old(recordsMap.result), |pushed|)
      {
        for j := 0 to COL_COUNT
          invariant |pushed| == i * ROW_COUNT + j
          invariant pushed == InitialRects(palette)[..|pushed|]
          invariant recordsMap.result == Recorded(old(recordsMap.result), |pushed|)
        {
          var no := i * ROW_COUNT + j;
          RowMajorIndex(i, j, ROW_COUNT);
          InitialRectsGrow(palette, pushed, no);
          ghost var before := recordsMap.result;
          pushed := pushed + [Rect(Dec(no), palette[no])];
          RecordSlot(no, Position(j, i));
          assert recordsMap.result == Record(before, no);
        }
      }
    }

    /** The body of `initial`'s loop for slot `no` at `position`: record it both ways. */
    method RecordSlot(no: int, position: Position)
      requires position == PosOf(no)
      modifies recordsMap
      ensures recordsMap.result == Record(old(recordsMap.result), no)
    {
      recordsMap.Set(At(position), Num(no));
      recordsMap.Set(Num(no), At(position));
    }

    /**
     * `findRect`: the first slot, in slot order, whose rect the mouse is on becomes
     * `moveIndex`; when there is none, `moveIndex` stays. `hit` is the hit-test on a
     * rect placed at a grid position. Only `moveIndex` changes, so `Valid()` is kept.
     */
    method FindRect(hit: (Rect, Position) -> bool)
      requires rects.Length == CELLS && GridRecords(recordsMap.result)
      modifies this
      ensures rects == old(rects) && recordsMap == old(recordsMap) && targetIndex == old(targetIndex)
      ensures forall k :: 0 <= k < rects.Length && hit(rects[k], PosOf(k)) ==>
        0 <= moveIndex <= k && hit(rects[moveIndex], PosOf(moveIndex))
      ensures (forall k :: 0 <= k < rects.Length ==> !hit(rects[k], PosOf(k))) ==> moveIndex == old(moveIndex)
    {
      var i := 0;
      while i < rects.Length
        invariant 0 <= i <= rects.Length
        invariant unchanged(this)
        invariant forall k :: 0 <= k < i ==> !hit(rects[k], PosOf(k))
      {
        var position := recordsMap.Get(Num(i));
        SlotOnGrid(i);
        var cell := position.value.p;
        if hit(rects[i], cell) {
          moveIndex := i;
          return;
        }
        i := i + 1;
      }
    }

    /**
     * `handleKeyDown`: look up the target slot's position, step it by the key, and
     * look the new position up; a miss (off the grid) changes nothing; otherwise the
     * two slots' rects are exchanged and the target moves to the new slot.
     */
    method HandleKeyDown(key: string)
      requires Valid()
      modifies this, rects
      ensures Valid() && rects == old(rects) && recordsMap == old(recordsMap)
      ensures moveIndex == old(moveIndex)
      ensures var q := Step(PosOf(old(targetIndex)), key);
        if OnGrid(q) then
          targetIndex == SlotOf(q) && rects[..] == Swap(old(rects[..]), old(targetIndex), SlotOf(q))
        else
          targetIndex == old(targetIndex) && rects[..] == old(rects[..])
    {
      var position := recordsMap.Get(Num(targetIndex));
      SlotOnGrid(targetIndex);
      var newPosition := Step(position.value.p, key);
      var newIndex := recordsMap.Get(At(newPosition));
      if newIndex.None? {
        return;
      }
      var t, k := targetIndex, newIndex.value.n;
      ghost var before := rects[..];
      var tmp := rects[t];
      rects[t] := rects[k];
      rects[k] := tmp;
      targetIndex := k;
      assert rects[..] == Swap(before, t, k);
      SwapKeepsLabels(before, t, k);
    }

    /** `check`: every rect sits in the slot its label names. */
    function Check(): (b: bool)
      reads this, rects
      ensures b <==> forall i :: 0 <= i < rects.Length ==> rects[i].id == Dec(i)
    {
      EveryInPlace(rects[..], 0)
    }
  }
}
