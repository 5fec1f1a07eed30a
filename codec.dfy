/**
 * The one-line-per-item text format of the store's file `todo`: `Flush` writes
 * `v|flag|addDate\n` for each item, flag `1` for done and `0` otherwise, and
 * `Load` splits each scanned line on `|`.
 */
module Codec {
  import opened GoText
  import opened Items

  /** The field separator. */
  const Sep: char := '|'

  /** The done flag as `Flush` writes it. */
  function Flag(done: bool): (f: string)
    ensures f == "1" <==> done
    ensures f == "0" <==> !done
  {
    if done then "1" else "0"
  }

  /** The line `Flush` writes for one item, without its `\n`. */
  function EncodeLine(it: Item): string
  {
    it.v + [Sep] + Flag(it.done) + [Sep] + it.addDate
  }

  /** The layout of a written line: text, separator, one flag character, separator, add date. */
  lemma EncodeLineLayout(it: Item)
    ensures var r := EncodeLine(it);
            && |r| == |it.v| + |it.addDate| + 3
            && r[..|it.v|] == it.v && r[|it.v|] == Sep
            && r[|it.v| + 1..|it.v| + 2] == Flag(it.done) && r[|it.v| + 2] == Sep
            && r[|it.v| + 3..] == it.addDate
  {
  }

  /** The whole file text `Flush` writes for `items`. */
  function Encode(items: seq<Item>): string
  {
    if items == [] then "" else EncodeLine(items[0]) + "\n" + Encode(items[1..])
  }

  /** The written text is empty exactly for no items, and otherwise ends with a newline. */
  lemma {:induction false} EncodeEnds(items: seq<Item>)
    ensures Encode(items) == "" <==> items == []
    ensures items != [] ==> Encode(items)[|Encode(items)| - 1] == '\n'
  {
    if items != [] {
      var head, rest := EncodeLine(items[0]) + "\n", Encode(items[1..]);
      assert Encode(items) == head + rest;
      if rest != "" {
        EncodeEnds(items[1..]);
        assert Encode(items)[|Encode(items)| - 1] == rest[|rest| - 1];
      }
    }
  }

  /** Writing one more item appends exactly its line. */
  lemma {:induction false} EncodeAppend(items: seq<Item>, it: Item)
    ensures Encode(items + [it]) == Encode(items) + EncodeLine(it) + "\n"
  {
    if items == [] {
      assert items + [it] == [it];
      assert [it][1..] == [];
    } else {
      var head, last := EncodeLine(items[0]) + "\n", EncodeLine(it) + "\n";
      assert (items + [it])[0] == items[0];
      assert (items + [it])[1..] == items[1..] + [it];
      EncodeAppend(items[1..], it);
      calc {
        Encode(items + [it]);
        head + Encode(items[1..] + [it]);
        head + (Encode(items[1..]) + last);
        (head + Encode(items[1..])) + last;
      }
    }
  }

  /** A line `Load` can decode: `Load` indexes the first three `|`-fields and panics on fewer. */
  predicate Decodable(line: string)
  {
    |Split(line, Sep)| >= 3
  }

  /** A line decodes exactly when it holds at least two separators. */
  lemma DecodableCount(line: string)
    ensures Decodable(line) <==> multiset(line)[Sep] >= 2
  {
    SplitCount(line, Sep);
  }

  /** The item `Load` appends for one line: text, done iff the flag is `1`, add date; no done date. */
  function DecodeLine(line: string): (it: Item)
    requires Decodable(line)
    ensures it.doneDate == ""
    ensures Sep !in it.v && Sep !in it.addDate
  {
    var f := Split(line, Sep);
    Item(f[0], f[1] == "1", f[2], "")
  }

  /** The items `Load` appends for the scanned lines, in file order. */
  function DecodeAll(lines: seq<string>): (r: seq<Item>)
    requires forall k :: 0 <= k < |lines| ==> Decodable(lines[k])
    ensures |r| == |lines|
    ensures forall k :: 0 <= k < |lines| ==> r[k] == DecodeLine(lines[k])
  {
    seq(|lines|, k requires 0 <= k < |lines| => DecodeLine(lines[k]))
  }

  /**
   * An item the format can carry: neither its text nor its add date holds a
   * separator or a newline, and the line does not end in a carriage return
   * (which the scanner would drop).
   */
  predicate Storable(it: Item)
  {
    && Sep !in it.v && '\n' !in it.v
    && Sep !in it.addDate && '\n' !in it.addDate
    && (|it.addDate| > 0 ==> it.addDate[|it.addDate| - 1] != '\r')
  }

  /** What survives a write and a read: everything but the done date. */
  function Persisted(it: Item): (r: Item)
    ensures r.v == it.v && r.done == it.done && r.addDate == it.addDate && r.doneDate == ""
  {
    it.(doneDate := "")
  }

  /** Splitting a written line on `|` gives back the text, the flag and the add date. */
  lemma {:induction false} SplitEncodeLine(it: Item)
    requires Sep !in it.v && Sep !in it.addDate
    ensures Split(EncodeLine(it), Sep) == [it.v, Flag(it.done), it.addDate]
  {
    var parts := [it.v, Flag(it.done), it.addDate];
    assert Join(parts[2..], Sep) == it.addDate;
    assert Join(parts[1..], Sep) == Flag(it.done) + [Sep] + it.addDate;
    assert Join(parts, Sep) == EncodeLine(it);
    SplitJoin(parts, Sep);
  }

  /**
   * The separator limit of the format is needed: an item whose text or add date
   * holds a `|` is written as a line that decodes, but to a different item.
   */
  lemma SeparatorLost(it: Item)
    requires Sep in it.v || Sep in it.addDate
    ensures Decodable(EncodeLine(it))
    ensures DecodeLine(EncodeLine(it)) != Persisted(it)
  {
    var line := EncodeLine(it);
    assert line == it.v + [Sep] + Flag(it.done) + [Sep] + it.addDate;
    assert multiset(line)[Sep] >= 2;
    DecodableCount(line);
  }

  /** Decoding a written line restores the item without its done date. */
  lemma DecodeEncodeLine(it: Item)
    requires Storable(it)
    ensures Decodable(EncodeLine(it))
    ensures DecodeLine(EncodeLine(it)) == Persisted(it)
  {
    SplitEncodeLine(it);
  }

  /** A written line of a storable item is one scanned line, unchanged by the carriage-return rule. */
  lemma LineScans(it: Item)
    requires Storable(it)
    ensures '\n' !in EncodeLine(it)
    ensures DropCR(EncodeLine(it)) == EncodeLine(it)
  {
    var line, f, d := EncodeLine(it), Flag(it.done), it.addDate;
    assert '\n' !in f && '\r' !in f;
    assert line == it.v + [Sep] + f + [Sep] + d;
    if |d| == 0 {
      assert line[|line| - 1] == Sep;
    } else {
      assert line[|line| - 1] == d[|d| - 1];
    }
  }

  /** The lines `Flush` writes for `items`, one per item, without their `\n`. */
  function EncodeLines(items: seq<Item>): (r: seq<string>)
    ensures |r| == |items|
    ensures forall k :: 0 <= k < |items| ==> r[k] == EncodeLine(items[k])
  {
    seq(|items|, k requires 0 <= k < |items| => EncodeLine(items[k]))
  }

  /** Scanning the written text yields one line per item, in order, each as written. */
  lemma {:induction false} ScanEncode(items: seq<Item>)
    requires forall k :: 0 <= k < |items| ==> Storable(items[k])
    ensures ScanLines(Encode(items)) == EncodeLines(items)
  {
    if items != [] {
      var line, rest := EncodeLine(items[0]), items[1..];
      calc {
        ScanLines(Encode(items));
        { assert Encode(items) == line + "\n" + Encode(rest);
          LineScans(items[0]);
          ScanLinesCons(line, Encode(rest)); }
        [line] + ScanLines(Encode(rest));
        { ScanEncode(rest); }
        [line] + EncodeLines(rest);
        EncodeLines(items);
      }
    }
  }

  /** What survives a write and a read of a whole sequence of items. */
  function PersistedAll(items: seq<Item>): (r: seq<Item>)
    ensures |r| == |items|
    ensures forall k :: 0 <= k < |items| ==> r[k] == Persisted(items[k])
  {
    seq(|items|, k requires 0 <= k < |items| => Persisted(items[k]))
  }

  /**
   * The file round trip: every line of the written text decodes, and decoding
   * gives back the items in order, with their text, flag and add date.
   */
  lemma RoundTrip(items: seq<Item>)
    requires forall k :: 0 <= k < |items| ==> Storable(items[k])
    ensures forall k :: 0 <= k < |ScanLines(Encode(items))| ==> Decodable(ScanLines(Encode(items))[k])
    ensures DecodeAll(ScanLines(Encode(items))) == PersistedAll(items)
  {
    var lines := ScanLines(Encode(items));
    ScanEncode(items);
    assert |lines| == |items|;
    forall k | 0 <= k < |items| ensures Decodable(lines[k]) && DecodeLine(lines[k]) == Persisted(items[k]) {
      assert lines[k] == EncodeLine(items[k]);
      DecodeEncodeLine(items[k]);
    }
  }
}
