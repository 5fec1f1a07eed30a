/**
 * Client code that drives a `ListMap` the way the program does: a flush
 * followed by a load into a fresh store, and three short sessions.
 */
module Scenarios {
  import opened GoText
  import opened Items
  import opened Codec
  import opened Store

  /** Flushing a store and loading the text into a fresh one gives back its items, without done dates. */
  method FlushThenLoad(a: ListMap) returns (b: ListMap)
    requires a.Valid()
    requires forall k :: 0 <= k < |a.m| ==> Storable(a.m[k])
    ensures fresh(b) && b.Valid()
    ensures b.m == PersistedAll(a.m)
    ensures b.p == None && b.lastKey == ""
  {
    var text := a.Flush();
    RoundTrip(a.m);
    b := new ListMap();
    b.Load(text);
  }

  /** Add "buy milk" and "write report", mark the first done, then flush and reload. */
  method DoneSurvivesReload()
  {
    var a := new ListMap();
    a.Add("buy milk", "2024/05/01");
    a.Add("write report", "2024/05/01");
    a.Done(0, "2024/05/02");
    assert a.m[0].doneDate == "2024/05/02";
    SamplesStorable(a.m[0], a.m[1]);
    var b := FlushThenLoad(a);
    assert |b.m| == 2;
    assert b.m[0].v == "buy milk" && b.m[0].done && b.m[0].doneDate == "";
    assert b.m[1].v == "write report" && !b.m[1].done;
  }

  /** The two items of DoneSurvivesReload fit the file format. */
  lemma SamplesStorable(x: Item, y: Item)
    requires x.v == "buy milk" && y.v == "write report"
    requires x.addDate == "2024/05/01" && y.addDate == "2024/05/01"
    ensures Storable(x) && Storable(y)
  {
  }

  /** Add "alpha" and "beta", delete the first: "beta" is now at index 0. */
  method DeleteShifts()
  {
    var a := new ListMap();
    a.Add("alpha", "2024/05/01");
    a.Add("beta", "2024/05/01");
    a.Del(0);
    var items := a.List();
    assert |items| == 1 && items[0].v == "beta";
    assert !a.IsEmpty();
  }

  /** "buy milk" matches the key "milk". */
  lemma MilkInBuyMilk(s: string)
    requires s == "buy milk"
    ensures MatchString(CompileContains("milk"), s)
  {
    assert s[4..8] == "milk" && s[..4] == "buy " && s[8..] == "";
    assert OccursAt("milk", s, 4);
  }

  /** Of "buy milk" and "write report", only the first matches the key "milk". */
  lemma OnlyMilkFound(x: Item, y: Item)
    requires x.v == "buy milk" && y.v == "write report"
    ensures Found([x, y], "milk") == [x]
  {
    assert Literal("milk");
    assert Selects("milk", x) by {
      MilkInBuyMilk(x.v);
    }
    assert !Selects("milk", y) by {
      assert 'm' !in y.v;
      NoMatchWithoutFirstChar("milk", y.v);
    }
    FoundFirstOfTwo(x, y, "milk");
  }

  /** Of two items, the search keeps just the first when only the first is selected. */
  lemma FoundFirstOfTwo(x: Item, y: Item, k: string)
    requires Literal(k) && Selects(k, x) && !Selects(k, y)
    ensures Found([x, y], k) == [x]
  {
    assert [x, y][1..] == [y] && [y][1..] == [];
    assert Found([y], k) == Found([], k) == [];
    assert Found([x, y], k) == [x] + Found([y], k);
  }

  /** Search "milk" over "buy milk" and "write report": only the first is found. */
  method SearchMilk()
  {
    var a := new ListMap();
    a.Add("buy milk", "2024/05/01");
    a.Add("write report", "2024/05/01");
    var found := a.Search("milk");
    OnlyMilkFound(a.m[0], a.m[1]);
    assert a.m == [a.m[0], a.m[1]];
    assert found == [a.m[0]] && found[0].v == "buy milk";
  }
}
