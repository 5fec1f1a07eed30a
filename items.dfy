/** One to-do entry (`ListItem`) and the ways the store shows it. */
module Items {

  /**
   * `ListItem`: the text `v`, whether it is done, the day it was added and the
   * day it was marked done (empty until then). Dates are `2006/01/02`-formatted
   * strings supplied by the caller.
   */
  datatype Item = Item(v: string, done: bool, addDate: string, doneDate: string)

  /** `ListItem.String`: the item's text. */
  function Text(it: Item): string
  {
    it.v
  }

  /** `ListItem.Status`, without its colour escapes. */
  function Status(it: Item): (r: string)
    ensures r == "done" || r == "undone"
    ensures r == "done" <==> it.done
  {
    if it.done then "done" else "undone"
  }

  /** `ListItem.Display`, without its colour escapes: `[status][addDate] text`. */
  function Display(it: Item): (r: string)
    ensures |r| == |Status(it)| + |it.addDate| + |it.v| + 5
    ensures r[..|Status(it)| + 2] == "[" + Status(it) + "]"
    ensures r[|r| - |it.v|..] == Text(it)
  {
    "[" + Status(it) + "][" + it.addDate + "] " + Text(it)
  }

  /** A displayed line shows whether its item is done: the status is the first word after `[`. */
  lemma DisplayShowsDone(a: Item, b: Item)
    requires Display(a) == Display(b)
    ensures a.done == b.done
  {
    assert Display(a)[1] == Status(a)[0];
    assert Display(b)[1] == Status(b)[0];
  }

  /** The item the undone view filters for. */
  predicate IsUndone(it: Item)
  {
    !it.done
  }

  /** The item after `ListMap.Done`: done, stamped with `date`, text and add date unchanged. */
  function MarkedDone(it: Item, date: string): (r: Item)
    ensures r.done && r.doneDate == date
    ensures r.v == it.v && r.addDate == it.addDate
  {
    it.(done := true, doneDate := date)
  }
}
