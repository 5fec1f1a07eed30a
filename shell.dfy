/**
 * The shell's "Done" menu entry, `DoneOperation` in cmd/root.go, on the
 * store's items: it shows the undone items, the user picks one of them by its
 * position in that list, and the shell hands that position to `ListMap.Done`.
 */
module Shell {
  import opened Seqs
  import opened Items
  import opened Store

  /**
   * As written: the position `pick` in the undone list is passed unchanged to
   * `Done`, which indexes the full list.
   */
  function DoneOperationAsWritten(items: seq<Item>, pick: int, today: string): (r: seq<Item>)
    requires 0 <= pick < |Undone(items)|
    ensures |r| == |items| && r[pick].done
    ensures forall j :: 0 <= j < |items| && j != pick ==> r[j] == items[j]
  {
    WithDone(items, pick, today)
  }

  /**
   * With a done item in front of an undone one, picking the only undone item
   * re-stamps the done item and leaves the picked one undone.
   */
  lemma AsWrittenMarksWrongItem()
    ensures var items := [Item("buy milk", true, "2024/01/01", "2024/01/02"),
                          Item("write report", false, "2024/01/01", "")];
            var after := DoneOperationAsWritten(items, 0, "2024/01/03");
            && Undone(items) == [items[1]]
            && after[0].doneDate == "2024/01/03"
            && Undone(after) == [items[1]]
  {
    var items := [Item("buy milk", true, "2024/01/01", "2024/01/02"),
                  Item("write report", false, "2024/01/01", "")];
    assert items[1..][1..] == [];
    var after := DoneOperationAsWritten(items, 0, "2024/01/03");
    assert after[1..] == [items[1]] && after[1..][1..] == [];
  }

  /** The first undone item heads the undone list; a done first item is skipped. */
  lemma UndoneCons(items: seq<Item>)
    requires items != []
    ensures Undone(items) == (if items[0].done then [] else [items[0]]) + Undone(items[1..])
  {
  }

  /** The position in the full list of the `pick`-th undone item. */
  function UndoneIndex(items: seq<Item>, pick: int): (i: int)
    requires 0 <= pick < |Undone(items)|
    ensures 0 <= i < |items|
    decreases |items|
  {
    UndoneCons(items);
    if !items[0].done && pick == 0 then 0
    else 1 + UndoneIndex(items[1..], if items[0].done then pick else pick - 1)
  }

  /** UndoneIndex finds the picked undone item, with exactly `pick` undone items before it. */
  lemma {:induction false} UndoneIndexFinds(items: seq<Item>, pick: int)
    requires 0 <= pick < |Undone(items)|
    ensures var i := UndoneIndex(items, pick);
            && !items[i].done
            && items[i] == Undone(items)[pick]
            && |Undone(items[..i])| == pick
    decreases |items|
  {
    UndoneCons(items);
    var i := UndoneIndex(items, pick);
    if !items[0].done && pick == 0 {
      assert items[..0] == [];
    } else {
      var k := if items[0].done then pick else pick - 1;
      UndoneIndexFinds(items[1..], k);
      assert items[..i] == [items[0]] + items[1..][..i - 1];
      FilterConcat([items[0]], items[1..][..i - 1], IsUndone);
    }
  }

  /** Corrected: the picked undone item is the one marked done. */
  function DoneOperation(items: seq<Item>, pick: int, today: string): (r: seq<Item>)
    requires 0 <= pick < |Undone(items)|
    ensures |r| == |items| && r[UndoneIndex(items, pick)].done
  {
    WithDone(items, UndoneIndex(items, pick), today)
  }

  /** The corrected operation takes exactly the picked item out of the undone list. */
  lemma DoneOperationMarksPicked(items: seq<Item>, pick: int, today: string)
    requires 0 <= pick < |Undone(items)|
    ensures Undone(DoneOperation(items, pick, today)) == Undone(items)[..pick] + Undone(items)[pick + 1..]
  {
    var i := UndoneIndex(items, pick);
    UndoneIndexFinds(items, pick);
    UndoneAfterDone(items, i, today);
    assert Filter([items[i]], IsUndone) == [items[i]];
    var before, after := Undone(items[..i]), Undone(items[i + 1..]);
    assert Undone(items) == before + [items[i]] + after;
    assert Undone(items)[..pick] == before;
    assert Undone(items)[pick + 1..] == after;
  }
}
