/**
 * The keyboard prototype src/core.ts: a 3-by-3 board built in order, a table of
 * key actions where the first registration of a key wins, and a key handler that
 * runs the action registered for the key, if any. The one action the file
 * registers ('d') looks up the fixed item and logs it.
 */
module Core {
  import opened Wrappers
  import opened Board

  const ROW_COUNT: nat := 3

  /**
   * A registered handler. `LogFixedItem` is the 'd' handler of the file. `registerAction`
   * is not exported, so the file itself makes every registration; `Foreign` stands for
   * registrations it never makes, which `RegisterAll` and `FirstRegistrationWins` range over.
   */
  datatype Action = LogFixedItem | Foreign(handler: nat)

  /** What `findFixedItem` returns: the item of the first fixed cell in row-major order. */
  function FixedItemOf(g: Cells): (it: Option<Item>)
    ensures it.None? <==> forall a, b :: 0 <= a < |g| && 0 <= b < |g[a]| ==> g[a][b].tag != Fixed
    ensures it.Some? ==> it.value.tag == Fixed
  {
    match Hole(g)
    case Some(p) => Some(Cell(g, p))
    case None => None
  }

  /** `findFixedItem`: the row-major scan, returning the item rather than its cell. */
  method FindFixedItem(a: array2<Item>) returns (it: Option<Item>)
    ensures it == FixedItemOf(Grid(a))
  {
    var p := FindFixedItemPos(a);
    if p.None? {
      return None;
    }
    return Some(a[p.value.row, p.value.col]);
  }

  /** On the board `createItems` builds, the fixed item found is the white item with id 0. */
  lemma FixedItemOfNewBoard(palette: seq<seq<string>>)
    requires Square(palette, ROW_COUNT)
    ensures FixedItemOf(SolvedGrid(ROW_COUNT, palette)) == Some(Item(FIXED_INDEX, HOLE_COLOR, Fixed))
  {
    SolvedGridFacts(ROW_COUNT, palette);
  }

  /**
   * `registerAction` on the value of the table: a key already present keeps its
   * action; a new key gets the given one; no other entry changes.
   */
  function Register(m: map<string, Action>, key: string, action: Action): (r: map<string, Action>)
    ensures r.Keys == m.Keys + {key}
    ensures r[key] == if key in m then m[key] else action
    ensures forall k :: k in m ==> r[k] == m[k]
  {
    if key in m then m else m[key := action]
  }

  /** The registrations `regs`, in order, starting from the table `m`. */
  function RegisterAll(m: map<string, Action>, regs: seq<(string, Action)>): map<string, Action>
  {
    if |regs| == 0 then m
    else Register(RegisterAll(m, regs[..|regs| - 1]), regs[|regs| - 1].0, regs[|regs| - 1].1)
  }

  /** The action of the earliest registration of `key` in `regs`, if there is one. */
  function FirstRegistered(regs: seq<(string, Action)>, key: string): Option<Action>
  {
    if |regs| == 0 then None
    else if regs[0].0 == key then Some(regs[0].1)
    else FirstRegistered(regs[1..], key)
  }

  /** Appending a registration changes the earliest one only for a key not seen before. */
  lemma {:induction false} FirstRegisteredAppend(regs: seq<(string, Action)>, key: string, action: Action, k: string)
    ensures FirstRegistered(regs + [(key, action)], k) ==
      if FirstRegistered(regs, k).None? && k == key then Some(action) else FirstRegistered(regs, k)
  {
    if |regs| > 0 {
      assert (regs + [(key, action)])[1..] == regs[1..] + [(key, action)];
      FirstRegisteredAppend(regs[1..], key, action, k);
    }
  }

  /**
   * The first registration wins: after a run of registrations, a key of the
   * starting table keeps its action, any other key has the action of its earliest
   * registration, and a key never registered stays absent.
   */
  lemma {:induction false} FirstRegistrationWins(m: map<string, Action>, regs: seq<(string, Action)>, k: string)
    ensures var r := RegisterAll(m, regs);
      if k in m then k in r && r[k] == m[k]
      else match FirstRegistered(regs, k)
        case Some(act) => k in r && r[k] == act
        case None => k !in r
  {
    if |regs| > 0 {
      var init := regs[..|regs| - 1];
      var last := regs[|regs| - 1];
      assert regs == init + [last];
      FirstRegistrationWins(m, init, k);
      FirstRegisteredAppend(init, last.0, last.1, k);
    }
  }

  /**
   * The module state of src/core.ts: the board built at load time and the action
   * table. The window listener that feeds `handleKeyDown` is not modelled.
   */
  class KeyboardBoard {
    var items: array2<Item>
    var actions: map<string, Action>

    /** Load time: the board in order, then the registration of the 'd' handler. */
    constructor(palette: seq<seq<string>>)
      requires Square(palette, ROW_COUNT)
      ensures fresh(items) && Grid(items) == SolvedGrid(ROW_COUNT, palette)
      ensures actions == map["d" := LogFixedItem]
    {
      var a := CreateItems(ROW_COUNT, palette);
      items := a;
      actions := map[];
      new;
      RegisterAction("d", LogFixedItem);
    }

    /** `registerAction`: record the action only when the key has none yet. */
    method RegisterAction(key: string, action: Action)
      modifies this
      ensures items == old(items)
      ensures actions == Register(old(actions), key, action)
    {
      if key !in actions {
        actions := actions[key := action];
      }
    }

    /**
     * `handleKeyDown`: run the action registered for the key, if any (`ran`). The
     * 'd' handler finds the fixed item (`found`) and only logs it, so nothing changes.
     */
    method HandleKeyDown(key: string) returns (ran: Option<Action>, found: Option<Item>)
      ensures ran.Some? <==> key in actions
      ensures ran.Some? ==> ran.value == actions[key]
      ensures found == if ran == Some(LogFixedItem) then FixedItemOf(Grid(items)) else None
    {
      if key !in actions {
        return None, None;
      }
      ran := Some(actions[key]);
      found := None;
      if actions[key] == LogFixedItem {
        found := FindFixedItem(items);
      }
    }
  }
}
