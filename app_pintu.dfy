/**
 * The canvas prototype src/app/pintu.ts: a `Pintu` object holding a game status and
 * a state (level, fixed number, items), a click that slides an item into the hole,
 * the win check that compares comma-joined number lists, restart and level change,
 * and the shuffle built from `shuffleList` (five passes of five three-cycles over
 * fifteen slots) and `shuffleItems`.
 */
module AppPintu {
  import opened Wrappers
  import opened Seqs
  import opened JsText
  import opened Board

  /** `tableCount`: the side of the (square) board for each level. */
  const TableCount: map<string, nat> := map["1" := 3, "2" := 4, "3" := 5]

  /** `shuffleList` makes five passes ... */
  const PASSES: nat := 5

  /** ... each over the fifteen slots 0..14, in triples. */
  const SPAN: nat := 15

  datatype Status = Playing | End

  /** `PinState` without the pixel width of a cell. */
  datatype PinState = PinState(fixedNo: nat, level: string, items: array2<Item>)

  function Max(a: nat, b: nat): nat
  {
    if a < b then b else a
  }

  // ---------------------------------------------------------------------------
  // shuffleList
  // ---------------------------------------------------------------------------

  /**
   * One step of a pass, through `hold`: slot `a` takes what `b` held, `b` takes what
   * `c` held, and `c` takes what `a` held.
   */
  function Rotate3<T>(s: seq<T>, a: nat, b: nat, c: nat): (r: seq<T>)
    requires a < |s| && b < |s| && c < |s|
    ensures |r| == |s|
  {
    var hold := s[a];
    var s1 := s[a := s[b]];
    var s2 := s1[b := s1[c]];
    s2[c := hold]
  }

  /**
   * What one `ri.sort(() => Math.random() - 0.5)` can leave in `ri`: some ordering of
   * the slots 0..14, each once. The random comparator is not modelled; every
   * ordering is allowed.
   */
  ghost predicate IsIndexPermutation(ri: seq<nat>)
  {
    |ri| == SPAN &&
    (forall k :: 0 <= k < SPAN ==> ri[k] < SPAN) &&
    (forall a, b :: 0 <= a < b < SPAN ==> ri[a] != ri[b])
  }

  /** The orderings drawn for the five passes. */
  ghost predicate Rounds(rounds: seq<seq<nat>>)
  {
    |rounds| == PASSES && forall j :: 0 <= j < PASSES ==> IsIndexPermutation(rounds[j])
  }

  /** The first `t` three-cycles of a pass with ordering `ri`. */
  function Cycles<T>(s: seq<T>, ri: seq<nat>, t: nat): (r: seq<T>)
    requires IsIndexPermutation(ri) && |s| >= SPAN && 3 * t <= SPAN
    ensures |r| == |s|
  {
    if t == 0 then s
    else
      var i := 3 * (t - 1);
      Rotate3(Cycles(s, ri, t - 1), ri[i], ri[i + 1], ri[i + 2])
  }

  /** The first `j` passes of `shuffleList`. */
  function Passes<T>(s: seq<T>, rounds: seq<seq<nat>>, j: nat): (r: seq<T>)
    requires Rounds(rounds) && |s| >= SPAN && j <= PASSES
    ensures |r| == |s|
  {
    if j == 0 then s else Cycles(Passes(s, rounds, j - 1), rounds[j - 1], |rounds[j - 1]| / 3)
  }

  /** A three-cycle over distinct slots moves three values around and touches nothing else. */
  lemma Rotate3Cycle<T>(s: seq<T>, a: nat, b: nat, c: nat)
    requires a < |s| && b < |s| && c < |s| && a != b && b != c && a != c
    ensures var r := Rotate3(s, a, b, c);
      r[a] == s[b] && r[b] == s[c] && r[c] == s[a] &&
      (forall k :: 0 <= k < |s| && k != a && k != b && k != c ==> r[k] == s[k])
  {
  }

  /** Three one-for-one exchanges that hand back what they took leave a multiset as it was. */
  lemma ExchangeCancel<T>(m: multiset<T>, m1: multiset<T>, m2: multiset<T>, mr: multiset<T>, x: T, y: T, z: T)
    requires m1 + multiset{x} == m + multiset{y}
    requires m2 + multiset{y} == m1 + multiset{z}
    requires mr + multiset{z} == m2 + multiset{x}
    ensures mr == m
  {
    forall e
      ensures mr[e] == m[e]
    {
      assert (m1 + multiset{x})[e] == (m + multiset{y})[e];
      assert (m2 + multiset{y})[e] == (m1 + multiset{z})[e];
      assert (mr + multiset{z})[e] == (m2 + multiset{x})[e];
    }
  }

  /** A three-cycle over distinct slots only rearranges the list. */
  lemma Rotate3Multiset<T>(s: seq<T>, a: nat, b: nat, c: nat)
    requires a < |s| && b < |s| && c < |s| && a != b && b != c && a != c
    ensures multiset(Rotate3(s, a, b, c)) == multiset(s)
  {
    var s1 := s[a := s[b]];
    var s2 := s1[b := s1[c]];
    var r := s2[c := s[a]];
    assert s1[b] == s[b] && s1[c] == s[c] && s2[c] == s[c];
    UpdateMultiset(s, a, s[b]);
    UpdateMultiset(s1, b, s[c]);
    UpdateMultiset(s2, c, s[a]);
    ExchangeCancel(multiset(s), multiset(s1), multiset(s2), multiset(r), s[a], s[b], s[c]);
  }

  /** The three slots of one triple of an ordering are distinct slots of the list. */
  lemma TripleDistinct(ri: seq<nat>, i: nat)
    requires IsIndexPermutation(ri) && i + 2 < SPAN
    ensures ri[i] < SPAN && ri[i + 1] < SPAN && ri[i + 2] < SPAN
    ensures ri[i] != ri[i + 1] && ri[i + 1] != ri[i + 2] && ri[i] != ri[i + 2]
  {
  }

  lemma CyclesUnfold<T>(s: seq<T>, ri: seq<nat>, t: nat)
    requires IsIndexPermutation(ri) && |s| >= SPAN && 0 < t && 3 * t <= SPAN
    ensures var i := 3 * (t - 1);
      Cycles(s, ri, t) == Rotate3(Cycles(s, ri, t - 1), ri[i], ri[i + 1], ri[i + 2])
  {
  }

  /** One more three-cycle of a pass only rearranges the list. */
  lemma CyclesStepMultiset<T>(s: seq<T>, ri: seq<nat>, t: nat)
    requires IsIndexPermutation(ri) && |s| >= SPAN && 0 < t && 3 * t <= SPAN
    ensures multiset(Cycles(s, ri, t)) == multiset(Cycles(s, ri, t - 1))
  {
    var i := 3 * (t - 1);
    TripleDistinct(ri, i);
    Rotate3Multiset(Cycles(s, ri, t - 1), ri[i], ri[i + 1], ri[i + 2]);
  }

  /** The three-cycles of a pass only rearrange the list. */
  lemma {:induction false} CyclesMultiset<T>(s: seq<T>, ri: seq<nat>, t: nat)
    requires IsIndexPermutation(ri) && |s| >= SPAN && 3 * t <= SPAN
    ensures multiset(Cycles(s, ri, t)) == multiset(s)
  {
    if t > 0 {
      CyclesMultiset(s, ri, t - 1);
      CyclesStepMultiset(s, ri, t);
    }
  }

  /** The three-cycles of a pass leave every slot from the fifteenth on alone. */
  lemma {:induction false} CyclesKeepTail<T>(s: seq<T>, ri: seq<nat>, t: nat)
    requires IsIndexPermutation(ri) && |s| >= SPAN && 3 * t <= SPAN
    ensures forall k :: SPAN <= k < |s| ==> Cycles(s, ri, t)[k] == s[k]
  {
    if t > 0 {
      var i := 3 * (t - 1);
      CyclesKeepTail(s, ri, t - 1);
      TripleDistinct(ri, i);
      Rotate3Cycle(Cycles(s, ri, t - 1), ri[i], ri[i + 1], ri[i + 2]);
    }
  }

  lemma PassesUnfold<T>(s: seq<T>, rounds: seq<seq<nat>>, j: nat)
    requires Rounds(rounds) && |s| >= SPAN && 0 < j <= PASSES
    ensures Passes(s, rounds, j) == Cycles(Passes(s, rounds, j - 1), rounds[j - 1], |rounds[j - 1]| / 3)
  {
  }

  /** `shuffleList` only rearranges its list. */
  lemma {:induction false} PassesMultiset<T>(s: seq<T>, rounds: seq<seq<nat>>, j: nat)
    requires Rounds(rounds) && |s| >= SPAN && j <= PASSES
    ensures multiset(Passes(s, rounds, j)) == multiset(s)
  {
    if j > 0 {
      PassesMultiset(s, rounds, j - 1);
      CyclesMultiset(Passes(s, rounds, j - 1), rounds[j - 1], |rounds[j - 1]| / 3);
    }
  }

  /** `shuffleList` never touches a slot past the fifteenth. */
  lemma {:induction false} PassesKeepTail<T>(s: seq<T>, rounds: seq<seq<nat>>, j: nat)
    requires Rounds(rounds) && |s| >= SPAN && j <= PASSES
    ensures forall k :: SPAN <= k < |s| ==> Passes(s, rounds, j)[k] == s[k]
  {
    if j > 0 {
      PassesKeepTail(s, rounds, j - 1);
      CyclesKeepTail(Passes(s, rounds, j - 1), rounds[j - 1], |rounds[j - 1]| / 3);
    }
  }

  /**
   * One pass of `shuffleList`'s outer loop: the ordering `ri` drawn for the pass is
   * cut into five triples, and each triple's slots are rotated through `hold`.
   */
  method ShufflePass<T>(tileArray: array<T>, ri: seq<nat>)
    requires tileArray.Length >= SPAN && IsIndexPermutation(ri)
    modifies tileArray
    ensures tileArray[..] == Cycles(old(tileArray[..]), ri, |ri| / 3)
  {
    ghost var t := 0;
    var i := 0;
    while i < SPAN
      invariant 0 <= i <= SPAN && i == 3 * t
      invariant tileArray[..] == Cycles(old(tileArray[..]), ri, t)
    {
      ghost var before := tileArray[..];
      var hold := tileArray[ri[i]];
      tileArray[ri[i]] := tileArray[ri[i + 1]];
      tileArray[ri[i + 1]] := tileArray[ri[i + 2]];
      tileArray[ri[i + 2]] := hold;
      assert tileArray[..] == Rotate3(before, ri[i], ri[i + 1], ri[i + 2]);
      CyclesUnfold(old(tileArray[..]), ri, t + 1);
      i, t := i + 3, t + 1;
    }
  }

  /** `shuffleList`: five passes, each with a freshly drawn ordering of the slots. */
  method ShuffleList<T>(tileArray: array<T>, rounds: seq<seq<nat>>)
    requires tileArray.Length >= SPAN && Rounds(rounds)
    modifies tileArray
    ensures tileArray[..] == Passes(old(tileArray[..]), rounds, |rounds|)
  {
    for j := 0 to |rounds|
      invariant tileArray[..] == Passes(old(tileArray[..]), rounds, j)
    {
      ShufflePass(tileArray, rounds[j]);
      PassesUnfold(old(tileArray[..]), rounds, j + 1);
    }
  }

  // ---------------------------------------------------------------------------
  // shuffleItems
  // ---------------------------------------------------------------------------

  /**
   * The list `shuffleList` works on: `Array.from({ length }, (_, k) => k)`, where every
   * slot it reads or writes past the end of a shorter list holds `undefined`.
   */
  function Slots(len: nat, m: nat): (r: seq<Option<nat>>)
    ensures |r| == m
    ensures forall k :: 0 <= k < m ==> r[k] == if k < len then Some(k) else None
  {
    if m == 0 then [] else Slots(len, m - 1) + [if m - 1 < len then Some(m - 1) else None]
  }

  /** Dropping the `undefined` slots from the fresh list leaves 0..len-1. */
  lemma {:induction false} DefinedSlots(len: nat, m: nat)
    requires len <= m
    ensures Defined(Slots(len, m)) == Range(len)
  {
    if m > len {
      DefinedSlots(len, m - 1);
      DefinedAppend(Slots(len, m - 1), [None]);
    } else if m > 0 {
      DefinedSlotsPrefix(m);
    }
  }

  lemma {:induction false} DefinedSlotsPrefix(m: nat)
    ensures Defined(Slots(m, m)) == Range(m)
  {
    if m > 0 {
      var last: nat := m - 1;
      var tail: seq<Option<nat>> := [Some(last)];
      DefinedSlotsPrefix(last);
      assert Slots(m, last) == Slots(last, last);
      assert Slots(m, m) == Slots(m, last) + tail;
      DefinedAppend(Slots(m, last), tail);
      assert Defined(tail) == [last] by {
        assert tail[1..] == [];
      }
    }
  }

  /** The shuffled list with its `undefined` slots filtered out is a rearrangement of 0..len-1. */
  lemma ShuffleIsPermutation(len: nat, rounds: seq<seq<nat>>)
    requires Rounds(rounds)
    ensures multiset(Defined(Passes(Slots(len, Max(len, SPAN)), rounds, |rounds|))) == multiset(Range(len))
  {
    var s := Slots(len, Max(len, SPAN));
    PassesMultiset(s, rounds, |rounds|);
    DefinedMultiset(Passes(s, rounds, |rounds|), s);
    DefinedSlots(len, Max(len, SPAN));
  }

  /**
   * `numbers` in `shuffleItems` after `shuffleList` and the filter: the row-major
   * home numbers 0..len-1, each exactly once, in shuffled order.
   */
  function ShuffledNumbers(len: nat, rounds: seq<seq<nat>>): (r: seq<nat>)
    requires Rounds(rounds)
    ensures multiset(r) == multiset(Range(len))
    ensures |r| == len && AllBelow(r, len)
  {
    ShuffleIsPermutation(len, rounds);
    var r: seq<nat> := Defined(Passes(Slots(len, Max(len, SPAN)), rounds, |rounds|));
    assert |multiset(r)| == |r|;
    forall k | 0 <= k < |r|
      ensures r[k] < len
    {
      assert r[k] in multiset(r);
      RangeCount(len, r[k]);
    }
    r
  }

  lemma ShuffledNumbersUnfold(len: nat, rounds: seq<seq<nat>>)
    requires Rounds(rounds)
    ensures ShuffledNumbers(len, rounds) == Defined(Passes(Slots(len, Max(len, SPAN)), rounds, |rounds|))
  {
  }

  /** Every entry of `numbers` is below `m`. */
  predicate AllBelow(numbers: seq<nat>, m: nat)
  {
    forall k :: 0 <= k < |numbers| ==> numbers[k] < m
  }

  /** Entry (i, j) of a row-major list of an n-by-n board. */
  function Slot(numbers: seq<nat>, n: nat, i: int, j: int): (v: nat)
    requires |numbers| == n * n && 0 <= i < n && 0 <= j < n
    ensures 0 <= i * n + j < |numbers| && v == numbers[i * n + j]
  {
    RowMajorBound(i, j, n, n);
    numbers[i * n + j]
  }

  /** The item at row-major number `no`: `items[Math.floor(no / rowCount)][no % rowCount]`. */
  function AtNumber(g: Cells, n: nat, no: nat): (it: Item)
    requires Square(g, n) && no < n * n
    ensures 0 <= no / n < n && 0 <= no % n < n && it == g[no / n][no % n]
  {
    DivBelow(no, n);
    g[no / n][no % n]
  }

  /**
   * The board `shuffleItems` builds: cell (i, j) receives the item found at the
   * row-major number `numbers[i * rowCount + j]` of the old board.
   */
  function Gather(g: Cells, n: nat, numbers: seq<nat>): (r: Cells)
    requires Square(g, n) && |numbers| == n * n && AllBelow(numbers, n * n)
    ensures Square(r, n)
  {
    seq(n, i requires 0 <= i < n => seq(n, j requires 0 <= j < n => AtNumber(g, n, Slot(numbers, n, i, j))))
  }

  /** Cell (i, j) of the gathered board, with the bounds of the indices involved. */
  lemma GatherCell(g: Cells, n: nat, numbers: seq<nat>, i: int, j: int)
    requires Square(g, n) && |numbers| == n * n && AllBelow(numbers, n * n)
    requires 0 <= i < n && 0 <= j < n
    ensures 0 <= i * n + j < n * n
    ensures var no := numbers[i * n + j];
      0 <= no / n < n && 0 <= no % n < n && Gather(g, n, numbers)[i][j] == g[no / n][no % n]
  {
    RowMajorBound(i, j, n, n);
    DivBelow(numbers[i * n + j], n);
  }

  /** Row-major entry k of the gathered board is entry `numbers[k]` of the old one. */
  lemma GatherAt(g: Cells, n: nat, numbers: seq<nat>, k: nat)
    requires Square(g, n) && |numbers| == n * n && AllBelow(numbers, n * n)
    requires k < n * n
    ensures |Flatten(Gather(g, n, numbers))| == |Flatten(g)| == n * n
    ensures Flatten(Gather(g, n, numbers))[k] == Flatten(g)[numbers[k]]
  {
    var r := Gather(g, n, numbers);
    FlattenLength(g, n);
    FlattenAt(r, n, k);
    DivModSplit(k, n);
    assert r[k / n][k % n] == AtNumber(g, n, Slot(numbers, n, k / n, k % n));
    FlattenAt(g, n, numbers[k]);
  }

  /** Gathering by a rearrangement of 0..N-1 only rearranges the board's items. */
  lemma GatherMultiset(g: Cells, n: nat, numbers: seq<nat>)
    requires Square(g, n) && |numbers| == n * n && AllBelow(numbers, n * n)
    requires multiset(numbers) == multiset(Range(n * n))
    ensures multiset(Flatten(Gather(g, n, numbers))) == multiset(Flatten(g))
  {
    var t := Flatten(Gather(g, n, numbers));
    FlattenLength(g, n);
    FlattenLength(Gather(g, n, numbers), n);
    forall k | 0 <= k < |t|
      ensures numbers[k] < |Flatten(g)| && t[k] == Flatten(g)[numbers[k]]
    {
      GatherAt(g, n, numbers, k);
    }
    SelectMultiset(Flatten(g), t, numbers);
  }

  /** Gathering a new board by `numbers` puts the item with home number `numbers[k]` at k. */
  lemma GatherSolvedIds(n: nat, palette: seq<seq<string>>, numbers: seq<nat>)
    requires Square(palette, n) && |numbers| == n * n && AllBelow(numbers, n * n)
    ensures RowMajorIds(Gather(SolvedGrid(n, palette), n, numbers)) == numbers
  {
    var g := SolvedGrid(n, palette);
    var ids := RowMajorIds(Gather(g, n, numbers));
    FlattenLength(Gather(g, n, numbers), n);
    forall k | 0 <= k < n * n
      ensures ids[k] == numbers[k]
    {
      GatherAt(g, n, numbers, k);
      var no := numbers[k];
      DivBelow(no, n);
      DivModSplit(no, n);
      FlattenAt(g, n, no);
      assert g[no / n][no % n].id == no;
    }
  }

  /**
   * The first half of `shuffleItems`: the numbers 0..length-1 (with `undefined` up to
   * slot 14) are shuffled by `shuffleList`, then the `undefined` slots are filtered out.
   */
  method ShuffleNumbers(length: nat, rounds: seq<seq<nat>>) returns (numbers: seq<nat>)
    requires Rounds(rounds)
    ensures numbers == ShuffledNumbers(length, rounds)
  {
    var slots := new Option<nat>[Max(length, SPAN)](k => if k < length then Some(k) else None);
    assert slots[..] == Slots(length, Max(length, SPAN));
    ShuffleList(slots, rounds);
    numbers := Defined(slots[..]);
    ShuffledNumbersUnfold(length, rounds);
  }

  /** The nested loop of `shuffleItems`: cell (i, j) of the new board is item `numbers[i * n + j]`. */
  method GatherItems(items: array2<Item>, n: nat, numbers: seq<nat>) returns (newItems: array2<Item>)
    requires items.Length0 == n && items.Length1 == n
    requires |numbers| == n * n && AllBelow(numbers, n * n)
    ensures fresh(newItems)
    ensures Grid(newItems) == Gather(Grid(items), n, numbers)
  {
    ghost var g := Grid(items);
    ghost var want := Gather(g, n, numbers);
    newItems := new Item[n, n];
    for i := 0 to n
      invariant forall r, c :: 0 <= r < i && 0 <= c < n ==> newItems[r, c] == want[r][c]
    {
      for j := 0 to n
        invariant forall r, c :: 0 <= r < i && 0 <= c < n ==> newItems[r, c] == want[r][c]
        invariant forall c :: 0 <= c < j ==> newItems[i, c] == want[i][c]
      {
        GatherCell(g, n, numbers, i, j);
        var no := numbers[i * n + j];
        newItems[i, j] := items[no / n, no % n];
      }
    }
    assert forall r :: 0 <= r < n ==> Grid(newItems)[r] == want[r];
    assert Grid(items) == g;
  }

  /**
   * `shuffleItems`: shuffle the row-major numbers 0..N-1 with `shuffleList`, keep the
   * defined ones, and fill the new board row by row from the old one.
   */
  method ShuffleItems(items: array2<Item>, rowCount: nat, colCount: nat, rounds: seq<seq<nat>>)
    returns (newItems: array2<Item>)
    requires rowCount == colCount && items.Length0 == rowCount && items.Length1 == colCount
    requires Rounds(rounds)
    ensures fresh(newItems)
    ensures Grid(newItems) == Gather(Grid(items), rowCount, ShuffledNumbers(rowCount * colCount, rounds))
  {
    var numbers := ShuffleNumbers(rowCount * colCount, rounds);
    newItems := GatherItems(items, rowCount, numbers);
  }

  /** Row-major entries from 15 on are never moved by the shuffle. */
  lemma ShuffledNumbersKeepTail(len: nat, rounds: seq<seq<nat>>)
    requires Rounds(rounds)
    ensures forall k :: SPAN <= k < len ==> ShuffledNumbers(len, rounds)[k] == k
  {
    if len > SPAN {
      var s := Slots(len, len);
      var p := Passes(s, rounds, |rounds|);
      ShuffledNumbersUnfold(len, rounds);
      PassesMultiset(s, rounds, |rounds|);
      PassesKeepTail(s, rounds, |rounds|);
      SameMultisetAllSome(p, s);
      DefinedAllSome(p);
    }
  }

  // ---------------------------------------------------------------------------
  // createState
  // ---------------------------------------------------------------------------

  /** The level is known, the board matches its size and is a valid board. */
  ghost predicate GoodState(st: PinState)
    reads st.items
  {
    st.level in TableCount && st.fixedNo == FIXED_INDEX &&
    st.items.Length0 == TableCount[st.level] && st.items.Length1 == TableCount[st.level] &&
    ValidBoard(Grid(st.items), TableCount[st.level])
  }

  /** The board `createState` deals for a side of n: a new board, shuffled. */
  function Dealt(n: nat, palette: seq<seq<string>>, rounds: seq<seq<nat>>): (g: Cells)
    requires Square(palette, n) && Rounds(rounds)
    ensures Square(g, n)
  {
    Gather(SolvedGrid(n, palette), n, ShuffledNumbers(n * n, rounds))
  }

  /** A well-formed state whose board is the one dealt for its level from these choices. */
  ghost predicate DealtState(st: PinState, palette: seq<seq<string>>, rounds: seq<seq<nat>>)
    reads st.items
  {
    GoodState(st) && Square(palette, TableCount[st.level]) && Rounds(rounds) &&
    Grid(st.items) == Dealt(TableCount[st.level], palette, rounds)
  }

  /**
   * A dealt board is a valid board (ids 0..N-1 once each, only id 0 fixed) whose
   * row-major ids are the shuffled numbers.
   */
  lemma DealtValid(n: nat, palette: seq<seq<string>>, rounds: seq<seq<nat>>)
    requires Square(palette, n) && Rounds(rounds)
    ensures ValidBoard(Dealt(n, palette, rounds), n)
    ensures RowMajorIds(Dealt(n, palette, rounds)) == ShuffledNumbers(n * n, rounds)
  {
    var g := SolvedGrid(n, palette);
    var numbers := ShuffledNumbers(n * n, rounds);
    SolvedGridFacts(n, palette);
    GatherMultiset(g, n, numbers);
    RearrangedValid(g, Dealt(n, palette, rounds), n);
    GatherSolvedIds(n, palette, numbers);
  }

  /** A dealt board is already won exactly when the shuffle left every number in place. */
  lemma DealtSolvedIff(n: nat, palette: seq<seq<string>>, rounds: seq<seq<nat>>)
    requires Square(palette, n) && Rounds(rounds)
    ensures Solved(Dealt(n, palette, rounds)) <==> ShuffledNumbers(n * n, rounds) == Range(n * n)
  {
    GatherSolvedIds(n, palette, ShuffledNumbers(n * n, rounds));
    FlattenLength(Dealt(n, palette, rounds), n);
  }

  /**
   * On a board of more than fifteen cells (levels "2" and "3"), every cell from
   * row-major number 15 on is dealt its own item: on level "3" the last two rows are
   * never shuffled.
   */
  lemma DealtKeepsTail(n: nat, palette: seq<seq<string>>, rounds: seq<seq<nat>>)
    requires Square(palette, n) && Rounds(rounds)
    ensures forall i, j :: 0 <= i < n && 0 <= j < n && i * n + j >= SPAN ==>
      Dealt(n, palette, rounds)[i][j] == SolvedGrid(n, palette)[i][j]
  {
    var numbers := ShuffledNumbers(n * n, rounds);
    ShuffledNumbersKeepTail(n * n, rounds);
    forall i, j | 0 <= i < n && 0 <= j < n && i * n + j >= SPAN
      ensures Dealt(n, palette, rounds)[i][j] == SolvedGrid(n, palette)[i][j]
    {
      GatherCell(SolvedGrid(n, palette), n, numbers, i, j);
      RowMajorIndex(i, j, n);
    }
  }

  /**
   * `createState`: a new board for the level (`no = i * ROW_COUNT + j`, colour
   * `#ffffff` and tag fixed for number 0), shuffled. A level that is not an own key of
   * `tableCount` makes the destructuring throw; that is the `None` result.
   */
  method CreateState(level: string, palette: seq<seq<string>>, rounds: seq<seq<nat>>)
    returns (st: Option<PinState>)
    requires level in TableCount ==> Square(palette, TableCount[level])
    requires Rounds(rounds)
    ensures st.None? <==> level !in TableCount
    ensures st.Some? ==> (fresh(st.value.items) && st.value.level == level &&
      DealtState(st.value, palette, rounds))
  {
    if level !in TableCount {
      return None;
    }
    var n := TableCount[level];
    var items := CreateItems(n, palette);
    var newItems := ShuffleItems(items, n, n, rounds);
    DealtValid(n, palette, rounds);
    return Some(PinState(FIXED_INDEX, level, newItems));
  }

  // ---------------------------------------------------------------------------
  // The win check
  // ---------------------------------------------------------------------------

  /**
   * `check` compares `noList.toString()` with the joined indices 0..N-1; since the
   * comma-joined text of a list of naturals determines the list, that is exactly
   * list equality.
   */
  lemma JoinedCheck(noList: seq<nat>, len: nat)
    ensures Join(noList) == Join(Range(len)) <==> noList == Range(len)
  {
    if Join(noList) == Join(Range(len)) {
      JoinInjective(noList, Range(len));
    }
  }

  /** The row-major ids of the first i + 1 rows extend those of the first i by row i's. */
  lemma RowMajorIdsStep(g: Cells, i: nat)
    requires i < |g|
    ensures RowMajorIds(g[..i + 1]) == RowMajorIds(g[..i]) + Image(IdOf, g[i])
  {
    assert g[..i + 1] == g[..i] + [g[i]];
    FlattenAppend(g[..i], g[i]);
    ImageAppend(IdOf, Flatten(g[..i]), g[i]);
  }

  /** The nested loop of `check`: the ids of the first n rows, row by row. */
  method IdList(items: array2<Item>, n: nat) returns (noList: seq<nat>)
    requires items.Length0 == n && items.Length1 == n
    ensures noList == RowMajorIds(Grid(items))
  {
    ghost var g := Grid(items);
    noList := [];
    for i := 0 to n
      invariant noList == RowMajorIds(g[..i])
    {
      for j := 0 to n
        invariant noList == RowMajorIds(g[..i]) + Image(IdOf, g[i][..j])
      {
        assert g[i][..j + 1] == g[i][..j] + [items[i, j]];
        ImageAppend(IdOf, g[i][..j], [items[i, j]]);
        noList := noList + [items[i, j].id];
      }
      assert g[i][..n] == g[i];
      RowMajorIdsStep(g, i);
    }
    assert g[..n] == g;
  }

  // ---------------------------------------------------------------------------
  // The game object
  // ---------------------------------------------------------------------------

  /**
   * `Pintu`: the status ('playing' / 'end') and the state whose items a click
   * rearranges in place. Canvas, image, number display and preview are not modelled.
   */
  class Pintu {
    var status: Status
    var state: PinState

    ghost predicate Valid()
      reads this, state.items
    {
      GoodState(state)
    }

    /** The constructor: status 'playing' and a dealt board of level "1". */
    constructor(palette: seq<seq<string>>, rounds: seq<seq<nat>>)
      requires Square(palette, TableCount["1"]) && Rounds(rounds)
      ensures Valid() && status == Playing && state.level == "1" && fresh(state.items)
      ensures DealtState(state, palette, rounds)
    {
      status := Playing;
      var st := CreateState("1", palette, rounds);
      state := st.value;
    }

    /**
     * `check`: list the ids row by row; when the list reads 0, 1, ..., N-1 the game
     * ends. Nothing else changes.
     */
    method Check()
      requires Valid()
      modifies this
      ensures Valid() && state == old(state)
      ensures status == if Solved(Grid(state.items)) then End else old(status)
    {
      var items := state.items;
      var str := Join(Range(items.Length0 * items.Length1));
      var noList := IdList(items, TableCount[state.level]);
      FlattenLength(Grid(items), items.Length1);
      JoinedCheck(noList, items.Length0 * items.Length1);
      if Join(noList) == str {
        status := End;
      }
    }

    /**
     * `handleClick` from the clicked cell on: nothing happens once the game has
     * ended or when the cell is off the board; otherwise the cell-level move rule
     * applies, and after a move (`onMove` would run) the win check runs.
     */
    method HandleClick(row: int, col: int) returns (moved: bool)
      requires Valid()
      modifies this, state.items
      ensures Valid() && state == old(state)
      ensures var g := old(Grid(state.items)); var h := Hole(g);
        if old(status) == End || !(0 <= row < |g| && 0 <= col < |g|) then
          !moved && Grid(state.items) == g && status == old(status)
        else
          moved == (h.Some? && Adjacent(h.value, Pos(row, col))) &&
          Grid(state.items) == (if moved then SwapCells(g, h.value, Pos(row, col)) else g) &&
          status == (if moved && Solved(Grid(state.items)) then End else old(status))
    {
      if status == End {
        return false;
      }
      var items := state.items;
      if row < 0 || col < 0 || row >= items.Length0 || col >= items.Length1 {
        return false;
      }
      ghost var g := Grid(items);
      moved := TryMove(items, row, col);
      if moved {
        SwapPreservesValid(g, items.Length0, Hole(g).value, Pos(row, col));
        Check();
      }
    }

    /** `handleRestart`: back to 'playing' with a freshly dealt board of the same level. */
    method HandleRestart(palette: seq<seq<string>>, rounds: seq<seq<nat>>)
      requires Valid() && Square(palette, TableCount[state.level]) && Rounds(rounds)
      modifies this
      ensures Valid() && status == Playing && state.level == old(state.level) && fresh(state.items)
      ensures DealtState(state, palette, rounds)
    {
      status := Playing;
      var st := CreateState(state.level, palette, rounds);
      state := st.value;
    }

    /**
     * `handleLevelChange`: a freshly dealt board of the new level, whatever the board
     * was before. The status is left as it was. A level that is not an own key of
     * `tableCount` throws before anything is assigned (`thrown`), so the old state (and, outside the
     * frame, its items) stays as it was.
     */
    method HandleLevelChange(level: string, palette: seq<seq<string>>, rounds: seq<seq<nat>>)
      returns (thrown: bool)
      requires Rounds(rounds)
      requires level in TableCount ==> Square(palette, TableCount[level])
      modifies this
      ensures status == old(status)
      ensures thrown <==> level !in TableCount
      ensures thrown ==> state == old(state)
      ensures !thrown ==> (state.level == level && fresh(state.items) &&
        DealtState(state, palette, rounds) && Valid())
    {
      var st := CreateState(level, palette, rounds);
      if st.None? {
        return true;
      }
      state := st.value;
      return false;
    }
  }
}
