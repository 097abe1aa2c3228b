# Five C teaching programs, modelled and verified in Dafny

This project models five small C programs from a collection of systems
programming examples and proves what each of them promises.

- **Ring buffer** (`ring_buffer.dfy`, module `RingBuffer`): a byte buffer
  over a fixed block of `cap` bytes with `read` and `write` cursors. The
  struct's comment says `read == write` means empty and the struct has no
  occupancy counter, so one slot stays free. The buffer is full at
  `cap - 1` bytes, and a write into a full buffer drops the byte
  (`write_ring_buffer` returns `void`). The class keeps the struct's fields
  and is specified by the ghost sequence `Contents()` of valid bytes,
  oldest first. The driver of `main` writes `cap*2` bytes and then tries
  `cap*3` reads. With capacity 4 it gets back exactly `'@'`, `'A'`, `'B'`.
  Using all `cap` slots would need an occupancy counter, which the C
  struct does not have.
- **Binary search tree** (`tree.dfy`, module `Tree`): heap nodes whose links
  `tree_add` rewrites in place. The ghost datatype `Shape` describes the
  tree below a pointer, and `Linked` ties the heap to it. Insertion is
  specified by the function `Added`, and the level-order printer by
  `Levels`. Instead of printing, `subtree_print` returns one sequence of
  values per level.
- **Minimum path sum** (`dynamic.dfy`, module `Dynamic`): the in-place
  dynamic program over a 3×4 `array2`. It is proved equal to the
  recurrence `Best`. `Best` is in turn proved equal to the cheapest
  right/down path, compared against explicit paths and their costs. On the
  program's static grid the answer is 15.
- **Float parser** (`parse_float.dfy`, module `ParseFloat`): the
  one-pass scanner with its three modes.
  - It is written as a method with the same loop and switch, and is proved
    equal to the function `Run` over the characters before the NUL.
  - An independent grammar of literals (`Literal`, `Render`, `Grow`) and
    their exact decimal value (`LitValue`) is proved to agree with it in
    both directions. Every literal the grammar produces parses to its
    value. Every string that parses is such a literal. Every string that
    aborts does so at the first character the grammar cannot take.
  - An exponent is only recognised after a decimal point, so `"1e5"` aborts
    on its `e`.
  - A failed `ASSERT_DIGIT` is an explicit outcome, `Aborts(at)`.
- **Event queue** (`unions.dfy`, module `Unions`):
  - the tagged union of keyboard, mouse and window events;
  - the NULL-terminated global queue of event pointers and its cursor, as
    a class over an `array<Option<Event>>`;
  - `fill_queue`, `get_event`, and the tag switch of `main`, which returns
    the list of reports instead of printing them.

`option.dfy` holds the `Option` datatype shared by the parser, the event
queue and the tree's `main`.

## Model

| member | source | states |
|---|---|---|
| RingBuffer.ToByte | _code/ring_buffer.c:54 | the `(char)` conversion keeps the value modulo 256, and leaves 0..255 unchanged |
| RingBuffer.DriverBytes | _code/ring_buffer.c:53-54 | the driver's first n bytes: n of them, the k-th being `(char)k + 64` |
| RingBuffer.RingBuffer.Next | _code/ring_buffer.c:7-10 | advancing a cursor stays inside the block and is `(i + 1) mod cap` |
| RingBuffer.RingBuffer.Contents | _code/ring_buffer.c:9-10 | the valid bytes run from `read` to `write`, wrapping round; there are always fewer than `cap` of them |
| RingBuffer.RingBuffer.IsEmpty | _code/ring_buffer.c:10 | `read == write` exactly when no byte is stored |
| RingBuffer.RingBuffer.IsFull | _code/ring_buffer.c:10 | full exactly when `cap - 1` bytes are stored; a zero-capacity buffer is always full |
| RingBuffer.RingBuffer.constructor | _code/ring_buffer.c:19-31 | `cap` is the requested capacity, the block holds `cap` zero bytes, both cursors are at its start, and the buffer is empty |
| RingBuffer.RingBuffer.Write | _code/ring_buffer.c:33-36 | a write appends `val` after the newest byte, or changes nothing when the buffer is full; the read cursor does not move |
| RingBuffer.RingBuffer.Read | _code/ring_buffer.c:38-42 | status 0 exactly when a byte is stored; then `ret` is the oldest byte and it is consumed; otherwise status -1, `*ret` and the contents unchanged |
| RingBuffer.WriteBytes | _code/ring_buffer.c:53-54 | after `count` writes into an empty buffer it holds the first `min(count, cap - 1)` driver bytes |
| RingBuffer.ReadBytes | _code/ring_buffer.c:56-58 | the successful reads return the stored bytes oldest first, as many as were stored or attempted; the rest stays stored |
| RingBuffer.Driver | _code/ring_buffer.c:44-61 | `main` reads back exactly the first `cap - 1` bytes it wrote, in order |
| RingBuffer.Demo | _code/ring_buffer.c:4-58 | with `RING_BUF_CAPACITY` 4, the reads return bytes 64, 65 and 66 |
| Tree.Node.constructor | _code/tree.c:17-19 | the new node has no children and holds `val` |
| Tree.TreeAdd | _code/tree.c:13-43 | the heap afterwards has the shape `Added(s, val, x)` for a fresh leaf `x`; an empty tree returns `x`, a non-empty one returns the same root |
| Tree.Hang | _code/tree.c:26-37 | setting the NULL link where the walk stopped completes the tree `Added` describes |
| Tree.AddedValues | _code/tree.c:26-37 | insertion adds exactly one occurrence of `val` to the stored values |
| Tree.AddedSize | _code/tree.c:26-37 | insertion adds exactly one node |
| Tree.AddedNodes | _code/tree.c:17-37 | the nodes afterwards are the old ones plus the new leaf |
| Tree.AddedDistinct | _code/tree.c:26-37 | a tree with no shared nodes stays one when a new node is inserted |
| Tree.AddedBst | _code/tree.c:26-37 | insertion keeps the order: left values smaller than the node, right values at least the node, so duplicates go right |
| Tree.DropAdded | _code/tree.c:29-35 | removing the new leaf gives back the old tree, so exactly one NULL link changed and no data changed |
| Tree.BuildTree | _code/tree.c:96-114 | the tree built is `AddAll`, the one `tree_add` on each value in input order gives; it is a search tree holding exactly those values, whose root is NULL only when the list is empty |
| Tree.EnqueueKids | _code/tree.c:54-57 | the non-NULL children of a node are appended left before right, at most two of them |
| Tree.ChildrenSize | _code/tree.c:51-58 | the next queue has at most `2*len` entries, all non-NULL, holding every node below the current queue |
| Tree.Levels | _code/tree.c:45-63 | a call prints at least one line |
| Tree.SubtreePrint | _code/tree.c:45-63 | the lines printed are `Levels` of the queued trees |
| Tree.TreePrint | _code/tree.c:65-78 | the lines printed for a tree are `Levels` of the one-tree queue |
| Tree.LevelsAtDepth | _code/tree.c:45-63 | line k of a call is the data at depth k below the queued nodes, left to right |
| Tree.TreePrintLevels | _code/tree.c:45-78 | `tree_print` prints as many lines as the tree is high, line k holding the data at depth k from left to right |
| Tree.TreePrintValues | _code/tree.c:45-78 | the printed lines together hold every value of the tree, as often as it occurs |
| Tree.TreeMain | _code/tree.c:90-119 | `main` as written: the printed lines are the levels of the tree that adding the input values in order builds, a search tree holding exactly those values; empty input ends in the NULL dereference instead |
| Tree.TreeMainGuarded | _code/tree.c:90-119 | `main` with the empty tree skipped: no lines exactly for empty input, otherwise the levels of the tree that adding the input values in order builds, holding exactly those values |
| Tree.InputOrder | _code/tree.c:109-115 | the input order decides the printed levels: 2, 1, 3 prints `2` then `1 3`, while 1, 2, 3 prints `1`, `2`, `3` |
| Dynamic.Min | _code/dynamic.c:6 | `MIN` is at most both arguments and equals one of them |
| Dynamic.BestIsLowerBound | _code/dynamic.c:30-41 | no right/down path to a cell costs less than the value the loops give it |
| Dynamic.BestPath | _code/dynamic.c:30-41 | some right/down path ends at the cell and costs exactly that value, so the value is the minimum |
| Dynamic.FromLeft | _code/dynamic.c:34-39 | a cell whose left neighbour is the cheaper (or only) way in gets its own value plus the left result |
| Dynamic.FromAbove | _code/dynamic.c:36-39 | a cell whose upper neighbour is the cheaper (or only) way in gets its own value plus the upper result |
| Dynamic.FirstRowSums | _code/dynamic.c:34-35 | the first row becomes running sums from the left |
| Dynamic.FirstColumnSums | _code/dynamic.c:36-37 | the first column becomes running sums from the top |
| Dynamic.MinPathSum | _code/dynamic.c:26-45 | every cell ends up holding the recurrence's value for the original grid, with `grid[0][0]` unchanged, and the bottom-right one is returned |
| Dynamic.StaticTable | _code/dynamic.c:8-12 | the table for the program's static grid, ending in 15 |
| Dynamic.Solve | _code/dynamic.c:47-52 | `main`'s solution is 15 |
| ParseFloat.DigitValue | _code/parse_float.c:46 | `*ptr - ASCII_ZERO` of a digit is below ten |
| ParseFloat.Run | _code/parse_float.c:34-72 | a failure of the loop happens at a character of the string |
| ParseFloat.Len | _code/parse_float.c:34 | the loop stops at the first NUL, or at the end of the characters |
| ParseFloat.FailPersists | _code/parse_float.c:45 | once the digit assertion fails, the run stops there whatever follows |
| ParseFloat.ParseFloatStr | _code/parse_float.c:22-81 | the loop, the switch and the final arithmetic give exactly `Outcome(str)` |
| ParseFloat.RunParsed | _code/parse_float.c:34-72 | the loop accepts a string exactly when it is a literal of the grammar; then its variables are those the literal determines |
| ParseFloat.TruncateGrow | _code/parse_float.c:34-72 | every non-empty literal is a shorter literal grown by its last character |
| ParseFloat.ParsedRender | _code/parse_float.c:34-72 | reading the text of a literal gives back that literal |
| ParseFloat.ValueOfLiteral | _code/parse_float.c:74-78 | the sign, the division by `prec` and the scaling by `exp10` give the literal's decimal value |
| ParseFloat.NumberAppend | _code/parse_float.c:46 | accumulating `res*10 + d` over two digit strings spells their concatenation |
| ParseFloat.ParseSound | _code/parse_float.c:22-81 | a returned value comes from a literal spelling the whole string, and is that literal's decimal value |
| ParseFloat.ParseComplete | _code/parse_float.c:22-81 | every literal of the grammar parses to its decimal value |
| ParseFloat.ParsedText | _code/parse_float.c:34 | a literal holds no NUL, so the loop reads all of it |
| ParseFloat.ParseAborts | _code/parse_float.c:45-65 | an abort happens at the first character the grammar cannot accept after a valid prefix |
| ParseFloat.RunPrefixFail | _code/parse_float.c:45-65 | the prefix before the failing character is accepted |
| ParseFloat.FEqualsOneSided | _code/parse_float.c:14 | `FEQUALS` as written accepts every result below the expected value, however far off |
| ParseFloat.FEqualsClose | _code/parse_float.c:9-14 | the intended comparison is symmetric and bounds the error on both sides |
| ParseFloat.NegatedText | _code/parse_float.c:41-44 | a leading minus sign keeps a literal valid and is the first character of its text |
| ParseFloat.NegatedValue | _code/parse_float.c:41-44 | a leading minus sign negates a literal's value |
| ParseFloat.RowPair | _code/parse_float.c:97-101 | a literal and its negation both return exactly their values, so both rows pass the intended comparison |
| ParseFloat.PlainValue | _code/parse_float.c:86-91 | the literal `11.3` denotes 11.3 |
| ParseFloat.PreciseValue | _code/parse_float.c:86-91 | the literal `119.312` denotes 119.312 |
| ParseFloat.LargeValue | _code/parse_float.c:86-91 | the literal `114.3` denotes 114.3 |
| ParseFloat.NoWholeValue | _code/parse_float.c:86-91 | the literal `.3` denotes 0.3 |
| ParseFloat.NoFractionValue | _code/parse_float.c:86-91 | the literal `114.` denotes 114 |
| ParseFloat.RaisedValue | _code/parse_float.c:88-94 | the literal `11.3e2` denotes 1130 |
| ParseFloat.ScaledValue | _code/parse_float.c:88-94 | the literal `119.312e-2` denotes 1.19312 |
| ParseFloat.HugeValue | _code/parse_float.c:88-94 | the literal `114.3e12` denotes 114.3·10¹² |
| ParseFloat.TinyValue | _code/parse_float.c:88-94 | the literal `.3e-3` denotes 0.0003 |
| ParseFloat.BareValue | _code/parse_float.c:88-94 | the literal `114.e1` denotes 1140 |
| ParseFloat.MainPlain | _code/parse_float.c:86-101 | `parse_float("11.3")` returns 11.3 and `parse_float("-11.3")` returns -11.3 |
| ParseFloat.MainPrecise | _code/parse_float.c:86-101 | `parse_float("119.312")` returns 119.312 and `parse_float("-119.312")` returns -119.312 |
| ParseFloat.MainLarge | _code/parse_float.c:86-101 | `parse_float("114.3")` returns 114.3 and `parse_float("-114.3")` returns -114.3 |
| ParseFloat.MainNoWhole | _code/parse_float.c:86-101 | `parse_float(".3")` returns 0.3 and `parse_float("-.3")` returns -0.3 |
| ParseFloat.MainNoFraction | _code/parse_float.c:86-101 | `parse_float("114.")` returns 114 and `parse_float("-114.")` returns -114 |
| ParseFloat.MainRaised | _code/parse_float.c:88-101 | `parse_float("11.3e2")` returns 1130 and `parse_float("-11.3e2")` returns -1130 |
| ParseFloat.MainScaled | _code/parse_float.c:88-101 | `parse_float("119.312e-2")` returns 1.19312 and `parse_float("-119.312e-2")` returns -1.19312 |
| ParseFloat.MainHuge | _code/parse_float.c:88-101 | `parse_float("114.3e12")` returns 114.3·10¹² and `parse_float("-114.3e12")` returns -114.3·10¹² |
| ParseFloat.MainTiny | _code/parse_float.c:88-101 | `parse_float(".3e-3")` returns 0.0003 and `parse_float("-.3e-3")` returns -0.0003 |
| ParseFloat.MainBare | _code/parse_float.c:88-101 | `parse_float("114.e1")` returns 1140 and `parse_float("-114.e1")` returns -1140 |
| ParseFloat.MainAssertions | _code/parse_float.c:86-101 | the table's assertion, with the comparison as intended, holds on all twenty rows |
| ParseFloat.ExponentNeedsPoint | _code/parse_float.c:36-53 | `"1e5"` aborts at its `e`, since an exponent marker is only taken after the point |
| Unions.Tag | _code/unions.c:14-39 | the union's `type` member reads the tag of the variant written, one of the three known tags |
| Unions.Classify | _code/unions.c:53-80 | a tag takes the default branch exactly when it is not 0, 1 or 2 |
| Unions.ClassifyTag | _code/unions.c:5-7 | a tag selects a variant's branch exactly when it is that variant's tag |
| Unions.Dispatch | _code/unions.c:53-81 | the unknown-type report is given exactly for an out-of-range tag, and names it |
| Unions.DispatchReports | _code/unions.c:53-80 | a well-tagged event's report carries the whole event back |
| Unions.Messages | _code/unions.c:52-82 | one report per event, in order, each describing its event |
| Unions.EventQueue.constructor | _code/unions.c:41-42 | the queue starts all NULL, with the cursor at its first slot |
| Unions.EventQueue.FillQueue | _code/unions.c:89-118 | from the cursor: a window event (resize, no quit), a mouse event at (42, 42), a keyboard event for `KEY_UP`, then NULL; the cursor and the other slots are unchanged |
| Unions.EventQueue.GetEvent | _code/unions.c:120-127 | at NULL it returns false and moves nothing; otherwise it returns the current event and advances by one slot |
| Unions.Run | _code/unions.c:52-82 | `main`'s loop reports every pending event in queue order and stops at the terminator, leaving the same slots drained rather than replaced |
| Unions.Demo | _code/unions.c:47-86 | `main` reports the window, the mouse and the keyboard event, in that order, and nothing else |

## Left out

- All printing (`fprintf`, `printf`, `dump_arr`) is replaced by returned values: the bytes read, the printed levels, the reports.
- `malloc`/`calloc` failure, `fail`, `free`, `tree_free` and the leaked queue entries of `unions.c` are left out; storage is Dafny arrays and objects.
- Pointers into blocks (`read`, `write`, `queue_ptr`) are indices; the ring buffer's `head` is its array.
- The C integer widths (`unsigned int cap`, `int` data, grid cells and coordinates) are unbounded; overflow of `cap*2`, of tree values or of path sums is not modelled.
- RingBuffer.RingBuffer.Write: `write_ring_buffer` is a stub in the source; the model gives it the behaviour its struct comment and driver call for (reserved slot, drop on full), not the stub's doing nothing.
- RingBuffer.RingBuffer.Read: `read_ring_buffer` is a stub that returns 0 without setting `*ret`; the model implements the intended read instead.
- The C struct has no occupancy counter, so the model reserves one slot: the buffer holds at most `cap - 1` bytes, and a counter would be needed to use all `cap` slots.
- The input loop of `tree.c`'s `main` (`fgetc`, `atoi`, the `BUFSIZ` overflow exit) is I/O; `BuildTree` starts from the converted values.
- Tree.TreePrint: requires a non-NULL root, since `tree_print` queues it and `subtree_print` dereferences it; the crash this causes on empty input is recorded under "Findings".
- Tree.SubtreePrint: the ghost set `pool` of nodes below the queue is a proof device, not program state.
- `dynamic` is modelled on any grid of the program's 3×4 size, not only the static one.
- Float arithmetic in `parse_float.c` (`float` accumulators, `exp10`, rounding) is replaced by exact integers and reals; the tolerance of `FEQUALS` is stated but plays no role for exact results.
- The `default: exit(1)` branch of `parse_float` cannot be reached (the mode has three values) and is not modelled; with assertions disabled by `NDEBUG` the parser would not abort, which is not modelled either.
- Unions.Dispatch: requires the union's `type` member to be the tag of the variant last written, or a tag outside 0..2; reading a variant's fields through another variant's tag reinterprets bytes and is not modelled.
- Unions.EventQueue.FillQueue: requires four free slots from the cursor, which `fill_queue` does not check.

## Findings

| source | as written | input that shows it | evidently intended | confidence | as-written member | corrected member |
|---|---|---|---|---|---|---|
| _code/parse_float.c:14 | `FEQUALS(a, b)` is `(a - b) < EQUALS_CUTOFF`, with no absolute value | a result of 0 for `"11.3"`: `0 - 11.3 < 1e-6` holds, so the assertion passes | `-EQUALS_CUTOFF < a - b < EQUALS_CUTOFF` | not executed | ParseFloat.FEqualsOneSided | ParseFloat.FEqualsClose |
| _code/tree.c:115 | `main` calls `tree_print(root)` unconditionally; `tree_print` queues `root` (line 73) and `subtree_print` reads `queue[i]->data` (line 53) | empty standard input: no value is added, `root` stays NULL and is dereferenced | print nothing for an empty tree | not executed | Tree.TreeMain | Tree.TreeMainGuarded |
