/**
 * The parts of Go's standard library that the to-do store relies on, on
 * strings of `char`: `strings.Split` with a one-character separator, the line
 * splitting of `bufio.ScanLines`, and the `regexp` pattern `^.*k.*$` that the
 * store compiles for a search key `k`; with `Join`, the inverse of `Split`.
 */
module GoText {

  /**
   * The search for the separator inside `strings.Split` (`strings.IndexByte` for a
   * one-byte separator): the position of the first `c` in `s`, or -1 when there is none.
   */
  function IndexOf(s: string, c: char): (n: int)
    ensures -1 <= n < |s|
    ensures n >= 0 ==> s[n] == c && c !in s[..n]
    ensures n == -1 <==> c !in s
  {
    if s == [] then -1
    else if s[0] == c then 0
    else
      var k := IndexOf(s[1..], c);
      assert s[1..][..k + 1] == s[1..k + 2] by { if k >= 0 { assert k + 2 <= |s|; } }
      if k < 0 then -1 else k + 1
  }

  /** The first separator of `a + [c] + b` is the one after `a`, if `a` holds none. */
  lemma IndexOfAfter(a: string, c: char, b: string)
    requires c !in a
    ensures IndexOf(a + [c] + b, c) == |a|
  {
    var s := a + [c] + b;
    assert s[|a|] == c;
    assert s[..|a|] == a;
  }

  /** `strings.Split(s, string(sep))`: the pieces of `s` between the separators. */
  function Split(s: string, sep: char): (r: seq<string>)
    ensures |r| >= 1
    ensures forall k :: 0 <= k < |r| ==> sep !in r[k]
    decreases |s|
  {
    var n := IndexOf(s, sep);
    if n < 0 then [s] else [s[..n]] + Split(s[n + 1..], sep)
  }

  /**
   * The inverse of `Split`: the parts with one separator between neighbours. The
   * program has no join of its own; this is how the three-field line `Flush` writes
   * is related to its splitting in `Load`.
   */
  function Join(parts: seq<string>, sep: char): string
  {
    if |parts| == 0 then ""
    else if |parts| == 1 then parts[0]
    else parts[0] + [sep] + Join(parts[1..], sep)
  }

  /** Joining a part in front of at least one more puts a separator between them. */
  lemma JoinCons(head: string, tail: seq<string>, sep: char)
    requires |tail| >= 1
    ensures Join([head] + tail, sep) == head + [sep] + Join(tail, sep)
  {
    assert ([head] + tail)[1..] == tail;
  }

  /** Splitting undoes joining, as long as no part contains the separator. */
  lemma {:induction false} SplitJoin(parts: seq<string>, sep: char)
    requires |parts| >= 1
    requires forall k :: 0 <= k < |parts| ==> sep !in parts[k]
    ensures Split(Join(parts, sep), sep) == parts
  {
    if |parts| > 1 {
      var head, tail := parts[0], parts[1..];
      var rest := Join(tail, sep);
      JoinCons(head, tail, sep);
      assert parts == [head] + tail;
      var s := head + [sep] + rest;
      IndexOfAfter(head, sep, rest);
      assert s[..|head|] == head;
      assert s[|head| + 1..] == rest;
      SplitJoin(tail, sep);
      assert Split(s, sep) == [head] + Split(rest, sep);
    }
  }

  /** A text with a separator splits into the piece before it and the pieces of the text after it. */
  lemma SplitAt(s: string, sep: char, n: int)
    requires n == IndexOf(s, sep) && n >= 0
    ensures Split(s, sep) == [s[..n]] + Split(s[n + 1..], sep)
    ensures s == s[..n] + [sep] + s[n + 1..]
  {
  }

  /** There is one more piece than there are separators. */
  lemma {:induction false} SplitCount(s: string, sep: char)
    ensures |Split(s, sep)| == multiset(s)[sep] + 1
    decreases |s|
  {
    var n := IndexOf(s, sep);
    if n >= 0 {
      var head, rest := s[..n], s[n + 1..];
      SplitAt(s, sep, n);
      SplitCount(rest, sep);
      assert multiset(s) == multiset(head) + multiset([sep]) + multiset(rest) by {
        assert s == head + [sep] + rest;
      }
      assert multiset(head)[sep] == 0;
    }
  }

  /** Joining undoes splitting: no character of `s` is lost or added. */
  lemma {:induction false} JoinSplit(s: string, sep: char)
    ensures Join(Split(s, sep), sep) == s
    decreases |s|
  {
    var n := IndexOf(s, sep);
    if n >= 0 {
      var head, rest := s[..n], s[n + 1..];
      SplitAt(s, sep, n);
      JoinSplit(rest, sep);
      JoinCons(head, Split(rest, sep), sep);
    }
  }

  /** The `dropCR` step of `bufio.ScanLines`: one trailing carriage return is removed. */
  function DropCR(s: string): (r: string)
    ensures r == s || r + "\r" == s
    ensures (|s| > 0 && s[|s| - 1] == '\r') == (r != s)
  {
    if |s| > 0 && s[|s| - 1] == '\r' then s[..|s| - 1] else s
  }

  /**
   * The lines a `bufio.Scanner` with `bufio.ScanLines` yields for the text `t`:
   * each `\n`-terminated line without its terminator and one trailing `\r`, then
   * the final unterminated line if it is non-empty.
   */
  function ScanLines(t: string): (r: seq<string>)
    ensures forall k :: 0 <= k < |r| ==> '\n' !in r[k]
    ensures |r| <= |t|
    decreases |t|
  {
    if t == [] then []
    else
      var n := IndexOf(t, '\n');
      if n < 0 then [DropCR(t)] else [DropCR(t[..n])] + ScanLines(t[n + 1..])
  }

  /** A terminated line is scanned first, by itself. */
  lemma ScanLinesCons(line: string, rest: string)
    requires '\n' !in line
    ensures ScanLines(line + "\n" + rest) == [DropCR(line)] + ScanLines(rest)
  {
    var t := line + "\n" + rest;
    IndexOfAfter(line, '\n', rest);
    assert t[..|line|] == line;
    assert t[|line| + 1..] == rest;
  }

  /** The characters that are special in Go's regular-expression syntax (those `regexp.QuoteMeta` escapes). */
  predicate IsMeta(c: char)
  {
    c in {'\\', '.', '+', '*', '?', '(', ')', '|', '[', ']', '{', '}', '^', '$'}
  }

  /** A search key that `regexp` reads literally. */
  predicate Literal(k: string)
  {
    forall i :: 0 <= i < |k| ==> !IsMeta(k[i])
  }

  /** `k` occurs in `s` starting at position `i`. */
  predicate OccursAt(k: string, s: string, i: int)
  {
    0 <= i && i + |k| <= |s| && s[i..i + |k|] == k
  }

  /** Plain substring containment. */
  predicate Contains(s: string, k: string)
  {
    exists i | 0 <= i <= |s| - |k| :: OccursAt(k, s, i)
  }

  /** The compiled form of `^.*k.*$` for a literal key `k`. */
  datatype Pattern = Contain(key: string)

  /**
   * `regexp.MustCompile("^.*" + k + ".*$")`; a literal key never makes it panic,
   * and on a single line the compiled pattern matches exactly the texts that
   * contain the key.
   */
  function CompileContains(k: string): (p: Pattern)
    requires Literal(k)
    ensures forall s :: '\n' !in s ==> (MatchString(p, s) <==> Contains(s, k))
  {
    assert forall s :: '\n' !in s ==> (MatchString(Contain(k), s) <==> Contains(s, k)) by {
      forall s | '\n' !in s ensures MatchString(Contain(k), s) <==> Contains(s, k) {
        if Contains(s, k) {
          var i :| 0 <= i <= |s| - |k| && OccursAt(k, s, i);
          assert '\n' !in s[..i] && '\n' !in s[i + |k|..];
        }
      }
    }
    Contain(k)
  }

  /**
   * `p.MatchString(s)`: without flags `^` and `$` anchor the whole text and `.`
   * does not match a newline, so the key must occur with no newline before or
   * after it.
   */
  predicate MatchString(p: Pattern, s: string)
  {
    exists i | 0 <= i <= |s| - |p.key| ::
      OccursAt(p.key, s, i) && '\n' !in s[..i] && '\n' !in s[i + |p.key|..]
  }

  /** On text without newlines the compiled pattern matches exactly the texts containing the key. */
  lemma MatchIsContains(k: string, s: string)
    requires Literal(k)
    requires '\n' !in s
    ensures MatchString(CompileContains(k), s) <==> Contains(s, k)
  {
    if Contains(s, k) {
      var i :| 0 <= i <= |s| - |k| && OccursAt(k, s, i);
      assert '\n' !in s[..i] && '\n' !in s[i + |k|..];
    }
  }

  /** A key without newlines never matches across a newline: a matched text has none. */
  lemma MatchHasNoNewline(k: string, s: string)
    requires Literal(k) && '\n' !in k
    requires MatchString(CompileContains(k), s)
    ensures '\n' !in s
  {
    var i :| 0 <= i <= |s| - |k| && OccursAt(k, s, i) && '\n' !in s[..i] && '\n' !in s[i + |k|..];
    assert s == s[..i] + k + s[i + |k|..];
  }

  /** The empty key matches every text without newlines. */
  lemma EmptyKeyMatches(s: string)
    requires '\n' !in s
    ensures MatchString(CompileContains(""), s)
  {
    assert OccursAt("", s, 0);
    assert s[0..] == s;
  }

  /** A non-empty key whose first character the text lacks never matches. */
  lemma NoMatchWithoutFirstChar(k: string, s: string)
    requires Literal(k) && |k| > 0 && k[0] !in s
    ensures !MatchString(CompileContains(k), s)
  {
  }
}
