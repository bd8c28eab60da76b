/**
 * Editing counts and the list of heat-maps: `updateCellCount` with the click
 * and context-menu rules that call it, and the delete button with
 * `getHeatmapIndex`.
 */
module Heatmaps {
  import opened Wrappers
  import opened Grid
  import opened Colors
  import opened Stats

  const Int32Max: int := 0x7FFF_FFFF

  /** `x | 0` on a whole number: ToInt32, wrapping modulo 2^32 into -2^31 .. 2^31 - 1. */
  function ToInt32(x: int): (r: int)
    ensures -Int32Max - 1 <= r <= Int32Max
    ensures (r - x) % 0x1_0000_0000 == 0
    ensures -Int32Max - 1 <= x <= Int32Max ==> r == x
  {
    (x + 0x8000_0000) % 0x1_0000_0000 - 0x8000_0000
  }

  /** The count map after `updateCellCount(cell, newCount)`: set, then deleted when the count is 0. */
  function SetCount(data: map<string, int>, key: string, newCount: int): (d: map<string, int>)
    ensures Count(d, key) == newCount
    ensures key in d <==> newCount != 0
    ensures forall k :: k != key ==> (k in d <==> k in data)
    ensures forall k :: k != key && k in data ==> d[k] == data[k]
  {
    var written := data[key := newCount];
    if newCount == 0 then written - {key} else written
  }

  /** A year view shows its out-of-year cells empty and ignores clicks on them. */
  predicate ShowAsEmpty(view: ViewRange, inYear: bool) {
    view.Year? && !inYear
  }

  /**
   * The count a click sets, `None` when the handler returns first: nothing
   * happens on a cell shown empty, a shift-click takes one off a positive
   * count, a plain click adds one.  `stored` is `heatmap.data[key] || 0`.
   */
  function ClickCount(stored: int, shift: bool, showAsEmpty: bool): Option<int> {
    if showAsEmpty then None
    else
      var cur := ToInt32(stored);
      if shift then (if cur <= 0 then None else Some(cur - 1))
      else Some(cur + 1)
  }

  /** The two buttons of the cell menu. */
  datatype MenuChoice = Decrease | Clear

  /**
   * The count a cell-menu button sets, `None` when nothing happens: the menu
   * does not open on a cell shown empty, and both buttons are disabled when
   * the count is not positive.  "Decrease" sets `Math.max(0, cur - 1)`,
   * "Clear" sets 0.
   */
  function MenuCount(stored: int, choice: MenuChoice, showAsEmpty: bool): Option<int> {
    if showAsEmpty then None
    else
      var cur := ToInt32(stored);
      if cur <= 0 then None
      else match choice
        case Decrease => Some(if cur - 1 < 0 then 0 else cur - 1)
        case Clear => Some(0)
  }

  /** The counts as the interface keeps them: every stored count is a positive 32-bit number. */
  predicate CountsValid(data: map<string, int>) {
    forall k :: k in data ==> 1 <= data[k] <= Int32Max
  }

  /** Clicks: a plain click adds one, a shift-click removes one or does nothing at 0, and out-of-year cells never change. */
  lemma ClickRules(data: map<string, int>, key: string, showAsEmpty: bool)
    requires CountsValid(data)
    ensures showAsEmpty ==> ClickCount(Count(data, key), false, true) == None && ClickCount(Count(data, key), true, true) == None
    ensures !showAsEmpty ==> ClickCount(Count(data, key), false, false) == Some(Count(data, key) + 1)
    ensures !showAsEmpty && Count(data, key) == 0 ==> ClickCount(Count(data, key), true, false) == None
    ensures !showAsEmpty && Count(data, key) > 0 ==> ClickCount(Count(data, key), true, false) == Some(Count(data, key) - 1)
  {
  }

  /** A shift-click undoes a plain click. */
  lemma ShiftClickUndoesClick(c: int)
    requires 0 <= c < Int32Max
    ensures ClickCount(c, false, false) == Some(c + 1)
    ensures ClickCount(c + 1, true, false) == Some(c)
  {
  }

  /** The menu: "Decrease" gives `max(0, cur - 1)` and "Clear" 0, so neither leaves a negative count. */
  lemma MenuRules(data: map<string, int>, key: string, choice: MenuChoice, showAsEmpty: bool)
    requires CountsValid(data)
    ensures showAsEmpty || Count(data, key) == 0 ==> MenuCount(Count(data, key), choice, showAsEmpty) == None
    ensures !showAsEmpty && Count(data, key) > 0 ==>
      MenuCount(Count(data, key), choice, showAsEmpty) == Some(if choice == Clear then 0 else Count(data, key) - 1)
    ensures forall stored :: MenuCount(stored, choice, showAsEmpty).Some? ==> MenuCount(stored, choice, showAsEmpty).value >= 0
  {
  }

  /**
   * Every edit keeps the stored counts positive 32-bit numbers, a plain click
   * as long as the count is below 2^31 - 1.
   */
  lemma EditsKeepCountsValid(data: map<string, int>, key: string, shift: bool, choice: MenuChoice, showAsEmpty: bool)
    requires CountsValid(data)
    ensures var c := ClickCount(Count(data, key), shift, showAsEmpty);
      c.Some? && (shift || Count(data, key) < Int32Max) ==> CountsValid(SetCount(data, key, c.value))
    ensures var c := MenuCount(Count(data, key), choice, showAsEmpty);
      c.Some? ==> CountsValid(SetCount(data, key, c.value))
  {
  }

  /** At 2^31 the `| 0` wraps: one more plain click stores -2^31 + 1. */
  lemma ClickWrapsAt2To31()
    ensures ClickCount(Int32Max, false, false) == Some(Int32Max + 1)
    ensures ClickCount(Int32Max + 1, false, false) == Some(-Int32Max)
  {
  }

  /** A heat-map: its id, its counts by date key and the range it shows. */
  class Heatmap {
    const id: string
    var data: map<string, int>
    var viewRange: ViewRange

    constructor(id: string, data: map<string, int>, viewRange: ViewRange)
      ensures this.id == id && this.data == data && this.viewRange == viewRange
    {
      this.id := id;
      this.data := data;
      this.viewRange := viewRange;
    }

    /**
     * `updateCellCount(cell, newCount)` for the cell of date key `key`: the
     * count is stored (and the key dropped at 0); the cell then shows the new
     * count and its level, or 0 when it is an out-of-year cell of a year view.
     */
    method UpdateCellCount(key: string, inYear: bool, newCount: int) returns (displayCount: int, displayLevel: int)
      modifies this
      ensures data == SetCount(old(data), key, newCount) && viewRange == old(viewRange)
      ensures displayCount == if ShowAsEmpty(viewRange, inYear) then 0 else newCount
      ensures displayLevel == if ShowAsEmpty(viewRange, inYear) then 0 else Level(newCount)
    {
      data := data[key := newCount];
      if newCount == 0 {
        data := data - {key};
      }
      var showAsEmpty := viewRange.Year? && !inYear;
      displayCount := if showAsEmpty then 0 else newCount;
      displayLevel := if showAsEmpty then 0 else Level(newCount);
    }

    /** The `click` handler of a cell: `ClickCount` decides whether and to what the count changes. */
    method Click(key: string, inYear: bool, shift: bool)
      modifies this
      ensures viewRange == old(viewRange)
      ensures match ClickCount(Count(old(data), key), shift, ShowAsEmpty(old(viewRange), inYear))
        case None => data == old(data)
        case Some(c) => data == SetCount(old(data), key, c)
    {
      if viewRange.Year? && !inYear {
        return;
      }
      var cur := ToInt32(if key in data then data[key] else 0);
      if shift {
        if cur <= 0 {
          return;
        }
        var _, _ := UpdateCellCount(key, inYear, cur - 1);
      } else {
        var _, _ := UpdateCellCount(key, inYear, cur + 1);
      }
    }

    /** The `contextmenu` handler and a press of one of the menu's buttons. */
    method Menu(key: string, inYear: bool, choice: MenuChoice)
      modifies this
      ensures viewRange == old(viewRange)
      ensures match MenuCount(Count(old(data), key), choice, ShowAsEmpty(old(viewRange), inYear))
        case None => data == old(data)
        case Some(c) => data == SetCount(old(data), key, c)
    {
      if viewRange.Year? && !inYear {
        return;
      }
      var cur := ToInt32(if key in data then data[key] else 0);
      if cur <= 0 {
        return;
      }
      match choice
      case Decrease =>
        var _, _ := UpdateCellCount(key, inYear, if cur - 1 < 0 then 0 else cur - 1);
      case Clear =>
        var _, _ := UpdateCellCount(key, inYear, 0);
    }
  }

  /** The index of the first heat-map with id `id`, -1 when there is none (`findIndex`). */
  function FirstIndex(hs: seq<Heatmap>, id: string): (i: int)
    ensures -1 <= i < |hs|
    ensures i >= 0 ==> hs[i].id == id && forall j :: 0 <= j < i ==> hs[j].id != id
    ensures i == -1 <==> forall j :: 0 <= j < |hs| ==> hs[j].id != id
  {
    if hs == [] then -1
    else
      var i := FirstIndex(hs[..|hs| - 1], id);
      if i >= 0 then i else if hs[|hs| - 1].id == id then |hs| - 1 else -1
  }

  /** The heat-maps whose id is not `id`, in order. */
  function Without(hs: seq<Heatmap>, id: string): seq<Heatmap> {
    if hs == [] then []
    else Without(hs[..|hs| - 1], id) + (if hs[|hs| - 1].id == id then [] else [hs[|hs| - 1]])
  }

  /** `Without` keeps exactly the heat-maps with another id. */
  lemma WithoutContents(hs: seq<Heatmap>, id: string)
    ensures var r := Without(hs, id);
      && (forall i :: 0 <= i < |r| ==> r[i] in hs && r[i].id != id)
      && (forall j :: 0 <= j < |hs| && hs[j].id != id ==> hs[j] in r)
  {
    WithoutOnlyOthers(hs, id);
    WithoutKeepsOthers(hs, id);
  }

  lemma {:induction false} WithoutOnlyOthers(hs: seq<Heatmap>, id: string)
    ensures forall i :: 0 <= i < |Without(hs, id)| ==> Without(hs, id)[i] in hs
    ensures forall i :: 0 <= i < |Without(hs, id)| ==> Without(hs, id)[i].id != id
  {
    if hs != [] {
      var front, last := hs[..|hs| - 1], hs[|hs| - 1];
      WithoutOnlyOthers(front, id);
      var kept, tail := Without(front, id), if last.id == id then [] else [last];
      var r := kept + tail;
      assert Without(hs, id) == r;
      forall i | 0 <= i < |r|
        ensures r[i] in hs && r[i].id != id
      {
        if i < |kept| {
          assert r[i] == kept[i];
          var k :| 0 <= k < |front| && front[k] == kept[i];
          assert hs[k] == front[k];
        } else {
          assert r[i] == last;
        }
      }
    }
  }

  lemma {:induction false} WithoutKeepsOthers(hs: seq<Heatmap>, id: string)
    ensures var r := Without(hs, id);
      forall j :: 0 <= j < |hs| && hs[j].id != id ==> hs[j] in r
  {
    if hs != [] {
      var front, last := hs[..|hs| - 1], hs[|hs| - 1];
      WithoutKeepsOthers(front, id);
      var kept, tail := Without(front, id), if last.id == id then [] else [last];
      var r := kept + tail;
      assert Without(hs, id) == r;
      forall j | 0 <= j < |hs| && hs[j].id != id
        ensures hs[j] in r
      {
        if j < |front| {
          assert hs[j] == front[j];
          assert hs[j] in kept;
        } else {
          assert r[|r| - 1] == last;
        }
      }
    }
  }

  predicate DistinctIds(hs: seq<Heatmap>) {
    forall i, j :: 0 <= i < j < |hs| ==> hs[i].id != hs[j].id
  }

  lemma {:induction false} WithoutAbsent(hs: seq<Heatmap>, id: string)
    requires forall j :: 0 <= j < |hs| ==> hs[j].id != id
    ensures Without(hs, id) == hs
  {
    if hs != [] {
      WithoutAbsent(hs[..|hs| - 1], id);
    }
  }

  lemma {:induction false} WithoutConcat(a: seq<Heatmap>, b: seq<Heatmap>, id: string)
    ensures Without(a + b, id) == Without(a, id) + Without(b, id)
    decreases |b|
  {
    if b != [] {
      var b', last := b[..|b| - 1], b[|b| - 1];
      WithoutConcat(a, b', id);
      assert (a + b)[..|a + b| - 1] == a + b' && (a + b)[|a + b| - 1] == last;
      var t := if last.id == id then [] else [last];
      assert Without(a + b, id) == Without(a + b', id) + t;
      assert Without(b, id) == Without(b', id) + t;
    } else {
      assert a + b == a;
    }
  }

  /** Taking one heat-map out of a list with distinct ids leaves distinct ids. */
  lemma SpliceKeepsDistinct(hs: seq<Heatmap>, i: int)
    requires DistinctIds(hs) && 0 <= i < |hs|
    ensures DistinctIds(hs[..i] + hs[i + 1..])
  {
    var r := hs[..i] + hs[i + 1..];
    forall p, q | 0 <= p < q < |r|
      ensures r[p].id != r[q].id
    {
      var p', q' := if p < i then p else p + 1, if q < i then q else q + 1;
      assert r[p] == hs[p'] && r[q] == hs[q'];
    }
  }

  /**
   * With distinct ids, removing the first heat-map with `id` removes every
   * heat-map with that id, keeps the others in order and keeps ids distinct.
   */
  lemma RemoveFirstIsWithout(hs: seq<Heatmap>, id: string)
    requires DistinctIds(hs)
    ensures var i := FirstIndex(hs, id);
      i >= 0 ==> hs[..i] + hs[i + 1..] == Without(hs, id) && DistinctIds(Without(hs, id))
  {
    var i := FirstIndex(hs, id);
    if i >= 0 {
      var front, back := hs[..i], hs[i + 1..];
      assert hs == front + [hs[i]] + back;
      forall j | 0 <= j < |back|
        ensures back[j].id != id
      {
        assert back[j] == hs[i + 1 + j];
      }
      SpliceWithout(front, hs[i], back, id);
      SpliceKeepsDistinct(hs, i);
    }
  }

  /** Dropping the one heat-map with `id` from the middle leaves what is around it. */
  lemma SpliceWithout(front: seq<Heatmap>, h: Heatmap, back: seq<Heatmap>, id: string)
    requires h.id == id
    requires forall j :: 0 <= j < |front| ==> front[j].id != id
    requires forall j :: 0 <= j < |back| ==> back[j].id != id
    ensures Without(front + [h] + back, id) == front + back
  {
    WithoutConcat(front + [h], back, id);
    WithoutConcat(front, [h], id);
    assert Without([h], id) == [] by {
      assert [h][..0] == [];
    }
    WithoutAbsent(front, id);
    WithoutAbsent(back, id);
  }

  /** The page's list of heat-maps (`heatmaps`). */
  class HeatmapList {
    var heatmaps: seq<Heatmap>

    constructor(hs: seq<Heatmap>)
      ensures heatmaps == hs
    {
      heatmaps := hs;
    }

    /** `getHeatmapIndex(id)`: the index of the first heat-map with that id, or -1. */
    method GetHeatmapIndex(id: string) returns (idx: int)
      ensures idx == FirstIndex(heatmaps, id)
      ensures -1 <= idx < |heatmaps|
      ensures idx >= 0 ==> heatmaps[idx].id == id
      ensures idx == -1 ==> forall j :: 0 <= j < |heatmaps| ==> heatmaps[j].id != id
    {
      idx := -1;
      var i := 0;
      while i < |heatmaps|
        invariant 0 <= i <= |heatmaps|
        invariant FirstIndex(heatmaps[..i], id) == -1
      {
        assert heatmaps[..i + 1][..i] == heatmaps[..i];
        if heatmaps[i].id == id {
          idx := i;
          assert FirstIndex(heatmaps[..i + 1], id) == i;
          FirstIndexOfPrefix(heatmaps, i + 1, id);
          return;
        }
        i := i + 1;
      }
      assert heatmaps[..|heatmaps|] == heatmaps;
    }

    /**
     * The delete button: when the user confirms, the first heat-map with the
     * id is spliced out; nothing changes when they cancel or the id is gone.
     */
    method Delete(id: string, confirmed: bool)
      modifies this
      ensures var i := FirstIndex(old(heatmaps), id);
        heatmaps == if confirmed && i >= 0 then old(heatmaps)[..i] + old(heatmaps)[i + 1..] else old(heatmaps)
    {
      if !confirmed {
        return;
      }
      var idx := GetHeatmapIndex(id);
      if idx == -1 {
        return;
      }
      heatmaps := heatmaps[..idx] + heatmaps[idx + 1..];
    }
  }

  /** A match found in a prefix is the first match of the whole list. */
  lemma FirstIndexOfPrefix(hs: seq<Heatmap>, n: int, id: string)
    requires 0 <= n <= |hs| && FirstIndex(hs[..n], id) >= 0
    ensures FirstIndex(hs, id) == FirstIndex(hs[..n], id)
  {
    var i := FirstIndex(hs[..n], id);
    assert hs[i] == hs[..n][i];
    forall j | 0 <= j < i
      ensures hs[j].id != id
    {
      assert hs[j] == hs[..n][j];
    }
  }
}
