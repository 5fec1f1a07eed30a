/** Order-preserving selection over sequences, shared by the store's undone view and its search. */
module Seqs {

  /** The elements of `s` that satisfy `f`, in their original order. */
  function Filter<T>(s: seq<T>, f: T -> bool): (r: seq<T>)
    ensures |r| <= |s|
  {
    if s == [] then [] else (if f(s[0]) then [s[0]] else []) + Filter(s[1..], f)
  }

  /** The first element is kept or dropped on its own, ahead of the rest. */
  lemma FilterCons<T>(x: T, rest: seq<T>, f: T -> bool)
    ensures Filter([x] + rest, f) == (if f(x) then [x] else []) + Filter(rest, f)
  {
    assert ([x] + rest)[1..] == rest;
  }

  /** Filtering distributes over concatenation. */
  lemma {:induction false} FilterConcat<T>(a: seq<T>, b: seq<T>, f: T -> bool)
    ensures Filter(a + b, f) == Filter(a, f) + Filter(b, f)
  {
    if a == [] {
      assert a + b == b;
    } else {
      var x, rest := a[0], a[1..];
      var head := if f(x) then [x] else [];
      assert a == [x] + rest;
      assert a + b == [x] + (rest + b);
      FilterCons(x, rest + b, f);
      FilterCons(x, rest, f);
      FilterConcat(rest, b, f);
      assert head + (Filter(rest, f) + Filter(b, f)) == (head + Filter(rest, f)) + Filter(b, f);
    }
  }

  /** Filtering around one element: the part before, the element itself, the part after. */
  lemma FilterAround<T>(pre: seq<T>, x: T, post: seq<T>, f: T -> bool)
    ensures Filter(pre + [x] + post, f) == Filter(pre, f) + Filter([x], f) + Filter(post, f)
  {
    FilterConcat(pre + [x], post, f);
    FilterConcat(pre, [x], f);
  }

  /** A one-element sequence keeps its element exactly when it satisfies `f`. */
  lemma FilterSingle<T>(x: T, f: T -> bool)
    ensures Filter([x], f) == if f(x) then [x] else []
  {
    assert [x][1..] == [];
  }

  /** An element is in the result exactly when it is in `s` and satisfies `f`. */
  lemma {:induction false} FilterMember<T>(s: seq<T>, f: T -> bool, x: T)
    ensures x in Filter(s, f) <==> x in s && f(x)
  {
    if s != [] {
      FilterMember(s[1..], f, x);
      assert x in s <==> x == s[0] || x in s[1..];
    }
  }

  /** The result is empty exactly when no element satisfies `f`. */
  lemma FilterEmpty<T>(s: seq<T>, f: T -> bool)
    ensures Filter(s, f) == [] <==> forall i :: 0 <= i < |s| ==> !f(s[i])
  {
    if exists i :: 0 <= i < |s| && f(s[i]) {
      var i :| 0 <= i < |s| && f(s[i]);
      FilterMember(s, f, s[i]);
    }
  }

  /** When every element satisfies `f`, nothing is dropped. */
  lemma {:induction false} FilterAll<T>(s: seq<T>, f: T -> bool)
    requires forall i :: 0 <= i < |s| ==> f(s[i])
    ensures Filter(s, f) == s
  {
    if s != [] {
      FilterAll(s[1..], f);
    }
  }

  /**
   * `idx` lists, at strictly increasing positions of `s`, exactly the positions
   * whose element satisfies `f`, and `r` holds those elements in that order.
   */
  ghost predicate SelectedAt<T>(s: seq<T>, f: T -> bool, r: seq<T>, idx: seq<int>)
  {
    && |idx| == |r|
    && (forall j :: 0 <= j < |idx| ==> 0 <= idx[j] < |s| && r[j] == s[idx[j]] && f(s[idx[j]]))
    && (forall j, j' :: 0 <= j < j' < |idx| ==> idx[j] < idx[j'])
    && (forall i :: 0 <= i < |s| && f(s[i]) ==> i in idx)
  }

  /**
   * The result is a complete, order-preserving selection: it consists of the
   * elements at the positions that satisfy `f`, taken in increasing order.
   */
  lemma {:induction false} FilterPositions<T>(s: seq<T>, f: T -> bool) returns (idx: seq<int>)
    ensures SelectedAt(s, f, Filter(s, f), idx)
  {
    if s == [] {
      idx := [];
    } else {
      var x, t := s[0], s[1..];
      var rest := FilterPositions(t, f);
      assert s == [x] + t;
      FilterCons(x, t, f);
      idx := SelectedCons(x, t, f, Filter(t, f), rest);
    }
  }

  /** One step of FilterPositions: a selection from `t` extends to one from `[x] + t`. */
  lemma SelectedCons<T>(x: T, t: seq<T>, f: T -> bool, r: seq<T>, rest: seq<int>) returns (idx: seq<int>)
    requires SelectedAt(t, f, r, rest)
    ensures SelectedAt([x] + t, f, (if f(x) then [x] else []) + r, idx)
  {
    var sh := ShiftedAll(x, t, f, r, rest);
    if f(x) {
      idx := [0] + sh;
      SelectedKeep(x, t, f, r, sh);
    } else {
      idx := sh;
      SelectedSkip(x, t, f, r, sh);
    }
  }

  /** The positions of a selection from `t`, read as positions in `[x] + t`. */
  lemma ShiftedAll<T>(x: T, t: seq<T>, f: T -> bool, r: seq<T>, rest: seq<int>) returns (sh: seq<int>)
    requires SelectedAt(t, f, r, rest)
    ensures |sh| == |r|
    ensures forall j :: 0 <= j < |sh| ==> 1 <= sh[j] <= |t| && r[j] == ([x] + t)[sh[j]] && f(r[j])
    ensures forall j, j' :: 0 <= j < j' < |sh| ==> sh[j] < sh[j']
    ensures forall i :: 1 <= i <= |t| && f(([x] + t)[i]) ==> i in sh
  {
    sh := seq(|rest|, j requires 0 <= j < |rest| => rest[j] + 1);
    ShiftSelects(x, t, f, r, rest, sh);
    ShiftOrdered(rest, sh);
    ShiftComplete(x, t, f, rest, sh);
  }

  /** Shifted positions pick the same elements out of `[x] + t`. */
  lemma ShiftSelects<T>(x: T, t: seq<T>, f: T -> bool, r: seq<T>, rest: seq<int>, sh: seq<int>)
    requires |rest| == |r| && |sh| == |rest|
    requires forall j :: 0 <= j < |rest| ==> 0 <= rest[j] < |t| && r[j] == t[rest[j]] && f(t[rest[j]])
    requires forall j :: 0 <= j < |sh| ==> sh[j] == rest[j] + 1
    ensures forall j :: 0 <= j < |sh| ==> 1 <= sh[j] <= |t| && r[j] == ([x] + t)[sh[j]] && f(r[j])
  {
    forall j | 0 <= j < |sh| ensures 1 <= sh[j] <= |t| && r[j] == ([x] + t)[sh[j]] && f(r[j]) {
      assert ([x] + t)[rest[j] + 1] == t[rest[j]];
    }
  }

  /** Shifting keeps positions increasing. */
  lemma ShiftOrdered(rest: seq<int>, sh: seq<int>)
    requires |sh| == |rest|
    requires forall j, j' :: 0 <= j < j' < |rest| ==> rest[j] < rest[j']
    requires forall j :: 0 <= j < |sh| ==> sh[j] == rest[j] + 1
    ensures forall j, j' :: 0 <= j < j' < |sh| ==> sh[j] < sh[j']
  {
    forall j, j' | 0 <= j < j' < |sh| ensures sh[j] < sh[j'] {
      assert rest[j] < rest[j'];
    }
  }

  /** Every satisfying position of the tail, moved up by one, is among the shifted positions. */
  lemma ShiftComplete<T>(x: T, t: seq<T>, f: T -> bool, rest: seq<int>, sh: seq<int>)
    requires |sh| == |rest|
    requires forall i :: 0 <= i < |t| && f(t[i]) ==> i in rest
    requires forall j :: 0 <= j < |sh| ==> sh[j] == rest[j] + 1
    ensures forall i :: 1 <= i <= |t| && f(([x] + t)[i]) ==> i in sh
  {
    forall i | 1 <= i <= |t| && f(([x] + t)[i]) ensures i in sh {
      assert ([x] + t)[i] == t[i - 1];
      var j :| 0 <= j < |rest| && rest[j] == i - 1;
      assert sh[j] == i;
    }
  }

  /** A selected head: position 0 comes first. */
  lemma SelectedKeep<T>(x: T, t: seq<T>, f: T -> bool, r: seq<T>, sh: seq<int>)
    requires f(x)
    requires |sh| == |r|
    requires forall j :: 0 <= j < |sh| ==> 1 <= sh[j] <= |t| && r[j] == ([x] + t)[sh[j]] && f(r[j])
    requires forall j, j' :: 0 <= j < j' < |sh| ==> sh[j] < sh[j']
    requires forall i :: 1 <= i <= |t| && f(([x] + t)[i]) ==> i in sh
    ensures SelectedAt([x] + t, f, [x] + r, [0] + sh)
  {
    var s, idx, r' := [x] + t, [0] + sh, [x] + r;
    forall j | 0 <= j < |idx| ensures 0 <= idx[j] < |s| && r'[j] == s[idx[j]] && f(s[idx[j]]) {
      if j > 0 {
        assert idx[j] == sh[j - 1] && r'[j] == r[j - 1];
      }
    }
    forall j, j' | 0 <= j < j' < |idx| ensures idx[j] < idx[j'] {
      assert idx[j'] == sh[j' - 1];
      if j > 0 {
        assert idx[j] == sh[j - 1];
      }
    }
    forall i | 0 <= i < |s| && f(s[i]) ensures i in idx {
      if i > 0 {
        var j :| 0 <= j < |sh| && sh[j] == i;
        assert idx[j + 1] == i;
      }
    }
  }

  /** A skipped head: the shifted positions are the whole selection. */
  lemma SelectedSkip<T>(x: T, t: seq<T>, f: T -> bool, r: seq<T>, sh: seq<int>)
    requires !f(x)
    requires |sh| == |r|
    requires forall j :: 0 <= j < |sh| ==> 1 <= sh[j] <= |t| && r[j] == ([x] + t)[sh[j]] && f(r[j])
    requires forall j, j' :: 0 <= j < j' < |sh| ==> sh[j] < sh[j']
    requires forall i :: 1 <= i <= |t| && f(([x] + t)[i]) ==> i in sh
    ensures SelectedAt([x] + t, f, r, sh)
  {
    assert ([x] + t)[0] == x;
  }
}
