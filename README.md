# todolist: the `ListMap` store and its file format

This project models the core of the `todolist` command-line to-do program, the
package `list` in `list/list.go`, in Dafny, and proves properties of the model:

- `ListItem`, an entry with a text, a done flag, an add date and a done date
  (module `Items`);
- `ListMap`, the in-memory store: an ordered sequence of items addressed by
  position, a separately kept counter `len`, and a one-entry cache of the
  compiled search pattern (`p`, `lastKey`) (class `Store.ListMap`);
- the text format of the file `todo`: `Flush` writes `v|flag|addDate\n` per item,
  and `Load` scans the lines back and splits each on `|` (module `Codec`);
- the pieces of Go's standard library that these rely on: `strings.Split` with a
  one-character separator (`IndexOf` is the search for the separator inside it),
  `bufio.ScanLines`, and the regular expression `^.*k.*$` that `Search` compiles
  (module `GoText`). `GoText` also defines `Join`, the inverse of `Split`. The
  program itself never joins: `Flush` formats each line with `fmt.Sprintf`.
  `Join` is only used to reason about splitting that three-field line;
- a generic order-preserving filter, behind the undone view and the search
  (module `Seqs`);
- the "Done" menu entry of the interactive shell, `DoneOperation` in `cmd/root.go`,
  which hands the store a position taken from the wrong list (module `Shell`,
  see "## Findings");
- a few sessions driving a `ListMap`: a flush followed by a load into a fresh store,
  a deletion, and a search (module `Scenarios`).

The methods of `ListMap` update the object's fields as the Go methods do. Each
one states its new state in terms of the old one through a function on values
(`WithDone`, `Removed`, `Undone`, `Found`, `Encode`, `DecodeAll`), and the
properties the program relies on are proved about those functions as lemmas.
`Valid()` is the invariant every method keeps:
- `len` equals the number of items;
- a cached pattern is the one compiled from `lastKey`;
- no pattern is cached only while `lastKey` is still empty.

Three points of behaviour follow the code as it stands:

- The done date is not written to the file, so it is lost on reload
  (`Codec.RoundTrip` gives it back empty).
- `Add` accepts any text, the empty text included.
- `Done` and `Del` do not report a bad index; Go panics on it. The model makes the
  index range a precondition.

Dates come from `time.Now()` in the program; here they are parameters (`today`,
`date`). The file is a string: `Flush` returns the text it would write and `Load`
takes the text it would read.

## Model

| member | source | states |
|---|---|---|
| `Items.Status` | list/list.go:46-51 | the status word is `done` exactly when the item is done and `undone` otherwise |
| `Items.Display` | list/list.go:53-55 | the display line is `[status][addDate] text`: its length, that it starts with the bracketed status and that it ends with the item's text |
| `Items.DisplayShowsDone` | list/list.go:46-55 | two items with the same display line agree on being done, so the line shows the done flag |
| `Items.MarkedDone` | list/list.go:108-109 | the marked item is done and stamped with the date; its text and add date are unchanged |
| `Store.ListMap.Valid` | list/list.go:100-124 | the store invariant: the counter that `AddWith` raises and `Del` lowers equals the number of items, a cached pattern is the one for `lastKey`, and the pattern is missing only while `lastKey` is still empty |
| `Store.ListMap.constructor` | list/list.go:27-33 | the zero `ListMap` is empty, counter 0, no cached pattern, empty last key, and valid |
| `Store.ListMap.Len` | list/list.go:57-59 | `Len` counts the items, never negative, and equals the counter in a valid store |
| `Store.ListMap.IsEmpty` | list/list.go:61-63 | in a valid store `IsEmpty` holds iff `Len() == 0` iff there are no items, although it reads the counter |
| `Store.ListMap.List` | list/list.go:65-69 | the items themselves, same length and the same item at every position |
| `Store.ListMap.ListSliceAll` | list/list.go:71-79 | one display line per item, the line at `j` being the display of item `j` |
| `Store.Displays` | list/list.go:75-77 | one display line per item, the line at `k` being the display of item `k` |
| `Store.Undone` | list/list.go:85-89 | the undone items in their original order, as `Filter` with `IsUndone`; its meaning is stated by `Seqs.FilterPositions`, `Seqs.FilterMember` and `Store.UndoneEmpty` |
| `Store.ListMap.ListSliceUndone` | list/list.go:81-91 | the display lines of exactly the undone items, in their original order |
| `Store.UndoneEmpty` | list/list.go:81-91 | the undone view is empty iff every item is done |
| `Store.ListMap.AddWith` | list/list.go:97-103 | appends exactly `{v, done, date}` with an empty done date after the old items, raises the counter by one, returns the old length as the new index, keeps the cache and `Valid()` |
| `Store.ListMap.Add` | list/list.go:93-95 | appends an undone item added on `today`, with an empty done date, after the old items |
| `Store.WithDone` | list/list.go:105-110 | the item at `i` is marked done with the date, every other position is unchanged, the length is unchanged |
| `Store.ListMap.Done` | list/list.go:105-110 | needs `0 <= i < Len()`; the new items are `WithDone(old items, i, today)`; counter and cache unchanged, `Valid()` kept |
| `Store.DoneTwice` | list/list.go:105-110 | marking the same item twice leaves it done and equals one marking with the later date |
| `Store.UndoneAfterDone` | list/list.go:105-110 | marking item `i` done removes exactly that item from the undone view: the view is the undone items before `i` followed by those after it |
| `Store.Removed` | list/list.go:112-117 | one item fewer; items before `i` keep their position, items after it move down by one |
| `Store.ListMap.Del` | list/list.go:112-117 | needs `0 <= i < Len()`; the new items are `Removed(old items, i)`; the counter drops by one and `Valid()` is kept |
| `Store.DoneIsOneWay` | list/list.go:105-117 | after `Done` or `Del`, every undone item was already undone before: neither operation turns a done item undone |
| `Store.ListMap.Search` | list/list.go:119-133 | for a literal key, returns the items whose text matches `^.*k.*$`, in order; afterwards `lastKey == k` and the pattern is recompiled exactly when the key changed; the items are untouched |
| `Store.Selects` | list/list.go:128 | whether the search selects an item: the compiled pattern matches the item's text |
| `Store.Found` | list/list.go:127-131 | the selected items in their original order, as `Filter` with `Selects`; its meaning is stated by `Seqs.FilterPositions` and `Store.FoundIsContains` |
| `Store.FoundIsContains` | list/list.go:119-133 | for texts without newlines, an item is found iff it is in the store and its text contains the key |
| `Store.FoundEmptyKey` | list/list.go:119-133 | searching for the empty key returns the whole store when no text holds a newline |
| `Store.ListMap.Flush` | list/list.go:136-157 | the text written is `Encode` of the items, and the store does not change |
| `Store.ListMap.Load` | list/list.go:161-178 | needs every scanned line to have three fields; appends the decoded items in file order after the existing ones, through `AddWith`, keeping `Valid()` |
| `Codec.Flag` | list/list.go:144-150 | the flag is `1` iff the item is done and `0` iff it is not |
| `Codec.EncodeLine` | list/list.go:151 | the line written for one item: text, flag and add date joined by the separator, without its newline; its layout is stated by `Codec.EncodeLineLayout` and its decoding by `Codec.SplitEncodeLine` |
| `Codec.EncodeLineLayout` | list/list.go:151 | a written line is the text, a separator, the one-character flag, a separator and the add date, at exactly those positions |
| `Codec.Encode` | list/list.go:145-155 | the whole text written, each item's line followed by a newline |
| `Codec.EncodeEnds` | list/list.go:145-155 | the written text is empty exactly when there are no items, and otherwise ends with a newline |
| `Codec.EncodeAppend` | list/list.go:145-155 | writing one more item appends exactly its line and a newline to the text |
| `Codec.EncodeLines` | list/list.go:145-155 | one written line per item, in order |
| `Codec.DecodeLine` | list/list.go:169-175 | a decoded item has an empty done date and no separator in its text or add date |
| `Codec.Decodable` | list/list.go:172-175 | a line `Load` can take: splitting it on the separator gives at least three fields, because the code indexes `item[1]` and `item[2]` and panics on fewer |
| `Codec.DecodableCount` | list/list.go:170-175 | a line can be decoded exactly when it holds at least two separators |
| `Codec.DecodeAll` | list/list.go:168-176 | one decoded item per line, in order |
| `Codec.Persisted` | list/list.go:151 | what the file keeps of an item: text, flag and add date, done date empty |
| `Codec.PersistedAll` | list/list.go:145-155 | `Persisted` of each item, in order |
| `Codec.Storable` | list/list.go:151-175 | what the format can carry: no separator or newline in the text or the add date, and no carriage return at the end of the line for the scanner to drop |
| `Codec.SeparatorLost` | list/list.go:151-175 | the separator limit is needed: an item with a separator in its text or add date writes a line that decodes, but to a different item |
| `Codec.SplitEncodeLine` | list/list.go:151-170 | splitting a written line on the separator gives exactly the text, the flag and the add date, if neither holds the separator |
| `Codec.DecodeEncodeLine` | list/list.go:151-175 | a written line of a storable item decodes to the item without its done date |
| `Codec.LineScans` | list/list.go:151-169 | for a storable item, the written line holds no newline and does not end in a carriage return, so the scanner gives it back unchanged |
| `Codec.ScanEncode` | list/list.go:145-169 | for storable items, scanning the written text yields exactly the written lines, one per item, in order |
| `Codec.RoundTrip` | list/list.go:136-178 | for storable items every scanned line of the written text decodes, and decoding gives back the items in order without their done dates |
| `GoText.IndexOf` | list/list.go:170 | the first position of the character, or -1 exactly when it does not occur |
| `GoText.IndexOfAfter` | list/list.go:170 | in `a + [c] + b` with no `c` in `a`, the first `c` is the one after `a` |
| `GoText.Split` | list/list.go:170 | at least one piece, and no piece holds the separator |
| `GoText.SplitCount` | list/list.go:170 | a split gives one more piece than the text has separators |
| `GoText.Join` | list/list.go:151 | the inverse of `Split` with the same separator, used to relate the written line to its splitting; the program itself formats with `fmt.Sprintf` |
| `GoText.JoinCons` | list/list.go:151 | joining a part in front of more parts puts one separator between |
| `GoText.SplitJoin` | list/list.go:151-170 | splitting a join gives back the parts, if no part holds the separator |
| `GoText.SplitAt` | list/list.go:170 | a text with a separator splits into the piece before the first separator and the pieces after it |
| `GoText.JoinSplit` | list/list.go:170 | joining the pieces of a split gives back the text |
| `GoText.DropCR` | list/list.go:166-167 | one trailing carriage return is removed, and only when there is one |
| `GoText.ScanLines` | list/list.go:166-169 | no scanned line holds a newline, and there are no more lines than characters |
| `GoText.ScanLinesCons` | list/list.go:166-169 | a newline-terminated line is scanned first, by itself |
| `GoText.CompileContains` | list/list.go:123 | for a literal key, the compiled `^.*k.*$` matches a text without newlines exactly when the text contains the key |
| `GoText.IsMeta` | list/list.go:123 | the characters that are special in Go's regular-expression syntax, the set `regexp.QuoteMeta` escapes |
| `GoText.Literal` | list/list.go:123 | a key with no such character, so that `^.*k.*$` reads it literally and `regexp.MustCompile` does not panic |
| `GoText.MatchString` | list/list.go:128 | `MatchString` of `^.*k.*$` without flags: the key occurs in the text, with no newline before or after the occurrence |
| `GoText.MatchHasNoNewline` | list/list.go:128 | a key without newlines never matches across a newline: any matched text has none |
| `GoText.MatchIsContains` | list/list.go:123-128 | on a text without newlines, `^.*k.*$` matches iff the text contains `k` |
| `GoText.EmptyKeyMatches` | list/list.go:123-128 | the empty key matches every text without newlines |
| `GoText.NoMatchWithoutFirstChar` | list/list.go:123-128 | a non-empty key whose first character the text lacks never matches |
| `Seqs.Filter` | list/list.go:85-89 | the filtered sequence is never longer than the input |
| `Seqs.FilterCons` | list/list.go:85-89 | filtering a sequence keeps or drops its head and filters the rest |
| `Seqs.FilterConcat` | list/list.go:85-89 | filtering distributes over concatenation |
| `Seqs.FilterAround` | list/list.go:85-89 | filtering `pre + [x] + post` filters the three parts separately |
| `Seqs.FilterSingle` | list/list.go:85-89 | a single element is kept iff it satisfies the test |
| `Seqs.FilterMember` | list/list.go:85-89 | an element is in the result iff it is in the input and satisfies the test |
| `Seqs.FilterEmpty` | list/list.go:85-89 | the result is empty iff no element satisfies the test |
| `Seqs.FilterAll` | list/list.go:85-89 | when every element satisfies the test the result is the input |
| `Seqs.FilterPositions` | list/list.go:85-89 | the result is the elements at exactly the positions that satisfy the test, in increasing order of position |
| `Seqs.SelectedCons` | list/list.go:85-89 | a selection from the tail extends to a selection from the whole sequence |
| `Seqs.ShiftedAll` | list/list.go:85-89 | the positions of a selection from the tail, moved up by one, select the same elements from the whole sequence |
| `Seqs.ShiftSelects` | list/list.go:85-89 | shifted positions pick the same elements out of the longer sequence |
| `Seqs.ShiftOrdered` | list/list.go:85-89 | shifting keeps the positions increasing |
| `Seqs.ShiftComplete` | list/list.go:85-89 | every satisfying position of the tail, moved up by one, is among the shifted positions |
| `Seqs.SelectedKeep` | list/list.go:85-89 | when the head is kept, position 0 followed by the shifted positions is a selection |
| `Seqs.SelectedSkip` | list/list.go:85-89 | when the head is dropped, the shifted positions alone are a selection |
| `Shell.DoneOperationAsWritten` | cmd/root.go:242-265 | as written: the position in the undone list is used as a position in the full list, and the item there is marked done |
| `Shell.AsWrittenMarksWrongItem` | cmd/root.go:242-265 | with a done item before the only undone one, picking that undone item re-stamps the done item and leaves the picked one undone |
| `Shell.UndoneCons` | list/list.go:81-91 | the undone view of a sequence starts with its head when the head is undone, followed by the undone view of the rest |
| `Shell.UndoneIndex` | cmd/root.go:242-265 | the position in the full list of the picked undone item lies in the list |
| `Shell.UndoneIndexFinds` | cmd/root.go:242-265 | that position holds the picked undone item, with exactly `pick` undone items before it |
| `Shell.DoneOperation` | cmd/root.go:242-265 | corrected: the list keeps its length and the item marked done is the one at the picked undone item's position in the full list |
| `Shell.DoneOperationMarksPicked` | cmd/root.go:242-265 | the corrected operation takes exactly the picked item out of the undone list |
| `Scenarios.FlushThenLoad` | list/list.go:136-178 | for a store of storable items, flushing it and loading the text into a fresh store gives back its items without done dates |

## Left out

- `sync.RWMutex` locking: the model is single-threaded, so locking has no observable effect.
- Colour escapes from `fatih/color` in `Status` and `Display`: the model keeps the plain text of each part.
- `Text`, the model of `ListItem.String`, has no contract: it is the item's text itself.
- The file system in `Flush` and `Load`: `syscall.Unlink`, `os.OpenFile`, write errors, and the file handle that is never closed. `Flush` returns the text and `Load` takes it as a parameter.
- `time.Now().Format("2006/01/02")` in `Add` and `Done`: the date is a parameter.
- `bufio.Scanner`'s 64 KiB limit on a line and its read errors; the model scans any text.
- Bytes against characters: Go strings are bytes and the model works on `char`. For the ASCII separators `|`, `\n` and `\r` the two agree.
- `Store.ListMap.Search`: Go's regular-expression syntax in general is not modelled. Only keys without metacharacters (`GoText.Literal`) are covered. For other keys the program either panics in `regexp.MustCompile` or matches a pattern rather than a substring.
- `Store.ListMap.Search`: the first search must not reuse the empty initial key on a non-empty store, because then the cached pattern is still `nil` and Go dereferences it. This is a precondition, not behaviour.
- `Store.ListMap.Load`: a line with fewer than three `|`-fields makes Go panic, so the model demands at least three. Fields after the third are ignored, as in the code.
- Aliasing: the Go store holds pointers to items. `List` and `Search` return those pointers, so callers can change stored items through them. The model stores and returns item values.
- Aliasing in `Del`: `append(l.m[:i], l.m[i+1:]...)` reuses the backing array. This is invisible through the store and not modelled.
- The 64-bit `int` counter: `len` is unbounded in the model, and overflow is unreachable in practice.
- The rest of `cmd/root.go`: the menu, prompts and other operations are user interface; only `DoneOperation`'s use of `Done` is modelled. `main.go` and `packagetest/` hold no store logic.

## Findings

| source | as written | input that shows it | evidently intended | confidence | as-written member | corrected member |
|---|---|---|---|---|---|---|
| cmd/root.go:242-265 | `DoneOperation` lists only the undone items and passes the picked position in that list to `ListMap.Done`, which indexes all items | items `buy milk` (done) then `write report` (undone); the user picks `write report`, position 0 of the undone list; `Done(0)` re-stamps `buy milk`, and `write report` stays undone | mark the picked undone item, i.e. pass its position in the full list | not executed | `Shell.AsWrittenMarksWrongItem` (on `Shell.DoneOperationAsWritten`) | `Shell.DoneOperationMarksPicked` (on `Shell.DoneOperation`) |
