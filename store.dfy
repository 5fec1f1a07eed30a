/**
 * The in-memory to-do store `ListMap`: an ordered sequence of items addressed
 * by position, a separately kept item counter, and the search-pattern cache.
 */
module Store {
  import opened Seqs
  import opened GoText
  import opened Items
  import opened Codec

  datatype Option<T> = None | Some(value: T)

  /** The items `ListSliceUndone` shows, in their original order. */
  function Undone(items: seq<Item>): seq<Item>
  {
    Filter(items, IsUndone)
  }

  /** Whether `Search(k)` selects an item. */
  predicate Selects(k: string, it: Item)
    requires Literal(k)
  {
    MatchString(CompileContains(k), it.v)
  }

  /** The items `Search(k)` returns, in their original order. */
  function Found(items: seq<Item>, k: string): seq<Item>
    requires Literal(k)
  {
    Filter(items, (it: Item) => Selects(k, it))
  }

  /** The display lines of `items`, one per item. */
  function Displays(items: seq<Item>): (r: seq<string>)
    ensures |r| == |items|
    ensures forall k :: 0 <= k < |items| ==> r[k] == Display(items[k])
  {
    seq(|items|, k requires 0 <= k < |items| => Display(items[k]))
  }

  /** The items after `Done(i)`: the item at `i` is marked, every other item is as it was. */
  function WithDone(items: seq<Item>, i: int, date: string): (r: seq<Item>)
    requires 0 <= i < |items|
    ensures |r| == |items|
    ensures r[i] == MarkedDone(items[i], date)
    ensures forall j :: 0 <= j < |items| && j != i ==> r[j] == items[j]
  {
    items[i := MarkedDone(items[i], date)]
  }

  /** The items after `Del(i)`: those before `i` keep their place, those after move down by one. */
  function Removed(items: seq<Item>, i: int): (r: seq<Item>)
    requires 0 <= i < |items|
    ensures |r| == |items| - 1
    ensures forall j :: 0 <= j < i ==> r[j] == items[j]
    ensures forall j :: i <= j < |r| ==> r[j] == items[j + 1]
  {
    items[..i] + items[i + 1..]
  }

  /** The undone view is empty exactly when every item is done. */
  lemma UndoneEmpty(items: seq<Item>)
    ensures Undone(items) == [] <==> forall j :: 0 <= j < |items| ==> items[j].done
  {
    FilterEmpty(items, IsUndone);
  }

  /** Marking the item at `i` done takes it, and only it, out of the undone view. */
  lemma UndoneAfterDone(items: seq<Item>, i: int, date: string)
    requires 0 <= i < |items|
    ensures Undone(WithDone(items, i, date)) == Undone(items[..i]) + Undone(items[i + 1..])
    ensures Undone(items) == Undone(items[..i]) + Undone([items[i]]) + Undone(items[i + 1..])
  {
    var pre, x, post := items[..i], items[i], items[i + 1..];
    var marked := MarkedDone(x, date);
    assert items == pre + [x] + post;
    assert WithDone(items, i, date) == pre + [marked] + post;
    FilterAround(pre, x, post, IsUndone);
    FilterAround(pre, marked, post, IsUndone);
    FilterSingle(marked, IsUndone);
  }

  /** Marking done twice leaves the item done, stamped with the later date, and is otherwise one marking. */
  lemma DoneTwice(items: seq<Item>, i: int, first: string, second: string)
    requires 0 <= i < |items|
    ensures WithDone(WithDone(items, i, first), i, second)[i].done
    ensures WithDone(WithDone(items, i, first), i, second) == WithDone(items, i, second)
  {
  }

  /** Deleting and marking done never turn a done item undone: every undone item afterwards was undone before. */
  lemma DoneIsOneWay(items: seq<Item>, i: int, date: string)
    requires 0 <= i < |items|
    ensures forall x :: x in Undone(WithDone(items, i, date)) ==> x in Undone(items)
    ensures forall x :: x in Undone(Removed(items, i)) ==> x in Undone(items)
  {
    var marked, removed := WithDone(items, i, date), Removed(items, i);
    forall x | x in Undone(marked) ensures x in Undone(items) {
      FilterMember(marked, IsUndone, x);
      var j :| 0 <= j < |marked| && marked[j] == x;
      FilterMember(items, IsUndone, items[j]);
    }
    forall x | x in Undone(removed) ensures x in Undone(items) {
      FilterMember(removed, IsUndone, x);
      var j :| 0 <= j < |removed| && removed[j] == x;
      assert x == items[if j < i then j else j + 1];
      FilterMember(items, IsUndone, x);
    }
  }

  /** Search returns exactly the items whose text contains the key, for texts without newlines. */
  lemma FoundIsContains(items: seq<Item>, k: string)
    requires Literal(k)
    requires forall j :: 0 <= j < |items| ==> '\n' !in items[j].v
    ensures forall x :: x in Found(items, k) <==> x in items && Contains(x.v, k)
  {
    forall x ensures x in Found(items, k) <==> x in items && Contains(x.v, k) {
      FilterMember(items, (it: Item) => Selects(k, it), x);
      if x in items {
        MatchIsContains(k, x.v);
      }
    }
  }

  /** Searching for the empty key returns every item whose text has no newline: the whole store. */
  lemma FoundEmptyKey(items: seq<Item>)
    requires forall j :: 0 <= j < |items| ==> '\n' !in items[j].v
    ensures Found(items, "") == items
  {
    forall j | 0 <= j < |items| ensures Selects("", items[j]) {
      EmptyKeyMatches(items[j].v);
    }
    FilterAll(items, (it: Item) => Selects("", it));
  }

  /** `ListMap`. The read-write lock is not modelled. */
  class ListMap {
    /** The items, in order. */
    var m: seq<Item>
    /** The item counter that `AddWith` and `Del` keep beside `m`. */
    var len: int
    /** The compiled pattern of the last search key, `nil` before the first search with a new key. */
    var p: Option<Pattern>
    /** The last search key. */
    var lastKey: string

    /**
     * The counter agrees with the items, a cached pattern is the one for the
     * last key, and the pattern is missing only before the first search with a
     * new key, while the last key is still empty.
     */
    ghost predicate Valid()
      reads this
    {
      && len == |m|
      && (p.Some? ==> Literal(lastKey) && p.value == CompileContains(lastKey))
      && (p.None? ==> lastKey == "")
    }

    /** The zero value `ListMap{}` that the program starts from. */
    constructor ()
      ensures Valid()
      ensures m == [] && len == 0 && p == None && lastKey == ""
    {
      m, len, p, lastKey := [], 0, None, "";
    }

    /** `Len`: counts the items themselves, not the counter. */
    function Len(): (n: int)
      reads this
      ensures n >= 0
      ensures Valid() ==> n == len
    {
      |m|
    }

    /** `IsEmpty`: read from the counter. */
    function IsEmpty(): (b: bool)
      reads this
      ensures Valid() ==> (b <==> Len() == 0)
      ensures Valid() ==> (b <==> m == [])
    {
      len == 0
    }

    /** `List`: the items themselves, in order. */
    method List() returns (items: seq<Item>)
      ensures |items| == Len()
      ensures forall j :: 0 <= j < |items| ==> items[j] == m[j]
    {
      items := m;
    }

    /** `ListSliceAll`: one display line per item, in order. */
    method ListSliceAll() returns (s: seq<string>)
      ensures |s| == Len()
      ensures forall j :: 0 <= j < |m| ==> s[j] == Display(m[j])
    {
      s := [];
      for j := 0 to |m|
        invariant |s| == j
        invariant forall k :: 0 <= k < j ==> s[k] == Display(m[k])
      {
        s := s + [Display(m[j])];
      }
    }

    /** `ListSliceUndone`: the display lines of the undone items, in order. */
    method ListSliceUndone() returns (s: seq<string>)
      ensures s == Displays(Undone(m))
    {
      s := [];
      for j := 0 to |m|
        invariant s == Displays(Undone(m[..j]))
      {
        assert m[..j + 1] == m[..j] + [m[j]];
        FilterConcat(m[..j], [m[j]], IsUndone);
        if !m[j].done {
          assert Undone(m[..j + 1]) == Undone(m[..j]) + [m[j]];
          s := s + [Display(m[j])];
        } else {
          assert Undone(m[..j + 1]) == Undone(m[..j]);
        }
      }
      assert m[..|m|] == m;
    }

    /** `AddWith`: appends `{v, done, date}` and returns its index. */
    method AddWith(v: string, done: bool, date: string) returns (idx: int)
      requires Valid()
      modifies this
      ensures Valid()
      ensures m == old(m) + [Item(v, done, date, "")]
      ensures len == old(len) + 1
      ensures idx == old(Len()) && m[idx].v == v
      ensures p == old(p) && lastKey == old(lastKey)
    {
      len := len + 1;
      m := m + [Item(v, done, date, "")];
      idx := len - 1;
    }

    /** `Add`: appends an undone item added on `today`. */
    method Add(v: string, today: string)
      requires Valid()
      modifies this
      ensures Valid()
      ensures m == old(m) + [Item(v, false, today, "")]
      ensures p == old(p) && lastKey == old(lastKey)
    {
      var _ := AddWith(v, false, today);
    }

    /** `Done(i)`: marks the item at `i` done on `today`; Go panics outside `0 <= i < Len()`. */
    method Done(i: int, today: string)
      requires Valid()
      requires 0 <= i < Len()
      modifies this
      ensures Valid()
      ensures m == WithDone(old(m), i, today)
      ensures len == old(len) && p == old(p) && lastKey == old(lastKey)
    {
      m := m[i := m[i].(done := true, doneDate := today)];
    }

    /** `Del(i)`: removes the item at `i`; Go panics outside `0 <= i < Len()`. */
    method Del(i: int)
      requires Valid()
      requires 0 <= i < Len()
      modifies this
      ensures Valid()
      ensures m == Removed(old(m), i)
      ensures len == old(len) - 1
      ensures p == old(p) && lastKey == old(lastKey)
    {
      len := len - 1;
      m := m[..i] + m[i + 1..];
    }

    /**
     * `Search(k)`: the items whose text matches `^.*k.*$`, in order, through the
     * pattern cache. Only literal keys are modelled, and the first search must
     * not reuse the empty last key on a non-empty store: the cached pattern is
     * still `nil` then and Go dereferences it.
     */
    method Search(k: string) returns (r: seq<Item>)
      requires Valid()
      requires Literal(k)
      requires k == lastKey && p.None? ==> m == []
      modifies this`lastKey, this`p
      ensures Valid()
      ensures r == Found(m, k)
      ensures lastKey == k
      ensures p == if k == old(lastKey) then old(p) else Some(CompileContains(k))
      ensures m == old(m) && len == old(len)
    {
      if k != lastKey {
        lastKey := k;
        p := Some(CompileContains(k));
      }
      ghost var cached := p;
      var matches := (it: Item) => Selects(k, it);
      r := [];
      for j := 0 to |m|
        invariant p == cached && lastKey == k && Valid()
        invariant r == Filter(m[..j], matches)
      {
        assert m[..j + 1] == m[..j] + [m[j]];
        FilterConcat(m[..j], [m[j]], matches);
        if MatchString(p.value, m[j].v) {
          r := r + [m[j]];
        }
      }
      assert m[..|m|] == m;
    }

    /** `Flush`: the text written to the file, one line per item; the store is unchanged. */
    method Flush() returns (text: string)
      ensures text == Encode(m)
    {
      text := "";
      for j := 0 to |m|
        invariant text == Encode(m[..j])
      {
        assert m[..j + 1] == m[..j] + [m[j]];
        EncodeAppend(m[..j], m[j]);
        text := text + EncodeLine(m[j]) + "\n";
      }
      assert m[..|m|] == m;
    }

    /**
     * `Load`: appends, through `AddWith`, the item of every line scanned from the
     * file text, after the items already present. A line with fewer than three
     * `|`-fields makes Go panic.
     */
    method Load(text: string)
      requires Valid()
      requires forall k :: 0 <= k < |ScanLines(text)| ==> Decodable(ScanLines(text)[k])
      modifies this
      ensures Valid()
      ensures m == old(m) + DecodeAll(ScanLines(text))
      ensures p == old(p) && lastKey == old(lastKey)
    {
      var lines := ScanLines(text);
      for j := 0 to |lines|
        invariant Valid()
        invariant m == old(m) + DecodeAll(lines[..j])
        invariant p == old(p) && lastKey == old(lastKey)
      {
        var f := Split(lines[j], Sep);
        var done := false;
        if f[1] == "1" {
          done := true;
        }
        var _ := AddWith(f[0], done, f[2]);
        assert DecodeAll(lines[..j + 1]) == DecodeAll(lines[..j]) + [DecodeLine(lines[j])];
      }
      assert lines[..|lines|] == lines;
    }
  }
}
