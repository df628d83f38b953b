/**
 * The work lists: a ledger of object keys kept in three line files of one directory.
 * `todo` holds the keys still to do, `wip` the batch in progress and `completed`
 * (append-only) the keys done. A key is read from a file only if its line passes the
 * line filter; the struct keeps the batch in progress in memory as `wipList`.
 */
module WorkLists {
  import opened Wrappers
  import opened Text

  datatype WorkListError = TodoFileMissing | WipFileMissing | InconsistentWipFileToList

  // ---------------------------------------------------------------------------
  // The line filter

  /** A line is an item unless it trims to nothing or, once left-trimmed, starts with '#'. */
  predicate IsItem(line: string)
  {
    Trim(line) != [] && !(TrimStart(line) != [] && TrimStart(line)[0] == '#')
  }

  /** The first character of `line` that is not whitespace sits at `i`. */
  predicate FirstNonWhitespaceAt(line: string, i: int)
  {
    0 <= i < |line| && AllWhitespace(line[..i]) && !IsWhitespace(line[i])
  }

  /** A line is an item exactly when it has a first non-whitespace character and that is not '#'. */
  lemma IsItemIff(line: string)
    ensures IsItem(line) <==> exists i :: FirstNonWhitespaceAt(line, i) && line[i] != '#'
  {
    TrimEmptyIffAllWhitespace(line);
    TrimStartSpec(line);
    var t := TrimStart(line);
    var k := |line| - |t|;
    if t != [] {
      assert line[k] == t[0];
      assert FirstNonWhitespaceAt(line, k);
      assert forall i :: 0 <= i < k ==> line[..k][i] == line[i];
      assert forall i :: k < i <= |line| ==> line[..i][k] == line[k];
    } else {
      forall i | 0 <= i < |line| ensures IsWhitespace(line[i]) {
        assert line[..k][i] == line[i];
      }
    }
  }

  /** The lines that pass the filter, verbatim and in order (the `filter_map` over `lines()`). */
  function Items(lines: seq<string>): (r: seq<string>)
    ensures |r| <= |lines|
    ensures forall k :: 0 <= k < |r| ==> IsItem(r[k])
  {
    if lines == [] then []
    else (if IsItem(lines[0]) then [lines[0]] else []) + Items(lines[1..])
  }

  /** Filtering works line by line: the items of two stretches of lines are their items in turn. */
  lemma {:induction false} ItemsAppend(a: seq<string>, b: seq<string>)
    ensures Items(a + b) == Items(a) + Items(b)
  {
    if a == [] {
      assert a + b == b;
    } else {
      var head := if IsItem(a[0]) then [a[0]] else [];
      assert (a + b)[0] == a[0];
      assert (a + b)[1..] == a[1..] + b;
      assert Items(a + b) == head + Items(a[1..] + b);
      ItemsAppend(a[1..], b);
      assert Items(a) == head + Items(a[1..]);
    }
  }

  /** Lines that are all items are kept as they are. */
  lemma {:induction false} ItemsOfItems(lines: seq<string>)
    requires forall k :: 0 <= k < |lines| ==> IsItem(lines[k])
    ensures Items(lines) == lines
  {
    if lines != [] {
      ItemsOfItems(lines[1..]);
    }
  }

  /** The items of a file; an absent file has none (`wip_file_to_wip_list`). */
  function FileItems(file: Option<string>): seq<string>
  {
    if file.None? then [] else Items(Lines(file.value))
  }

  /** The text of a file opened with `create(true)`: nothing if it was absent. */
  function Contents(file: Option<string>): string
  {
    if file.None? then "" else file.value
  }

  /** The list with every occurrence of `x` removed (`Vec::retain(|y| *y != x)`). */
  function Without(s: seq<string>, x: string): (r: seq<string>)
    ensures x !in r
    ensures forall k :: 0 <= k < |r| ==> r[k] in s
  {
    if s == [] then []
    else (if s[0] == x then [] else [s[0]]) + Without(s[1..], x)
  }

  /** Removal works element by element, so the other items keep their order. */
  lemma {:induction false} WithoutAppend(a: seq<string>, b: seq<string>, x: string)
    ensures Without(a + b, x) == Without(a, x) + Without(b, x)
  {
    if a == [] {
      assert a + b == b;
    } else {
      assert (a + b)[0] == a[0];
      assert (a + b)[1..] == a[1..] + b;
      WithoutAppend(a[1..], b, x);
    }
  }

  /** Removing an item that is not there changes nothing. */
  lemma {:induction false} WithoutAbsent(s: seq<string>, x: string)
    requires x !in s
    ensures Without(s, x) == s
  {
    if s != [] {
      WithoutAbsent(s[1..], x);
    }
  }

  // ---------------------------------------------------------------------------
  // Writing and reading back

  /** No item ends in a carriage return (the one thing a write and reread does not keep). */
  predicate NoTrailingCr(items: seq<string>)
  {
    forall k :: 0 <= k < |items| ==> !EndsWithCr(items[k])
  }

  /** Writes each item on its own line, as the writing loops of the struct do. */
  method WriteItems(items: seq<string>) returns (text: string)
    ensures text == WriteLines(items)
  {
    text := "";
    var i := 0;
    while i < |items|
      invariant 0 <= i <= |items|
      invariant text == WriteLines(items[..i])
    {
      WriteLinesSnoc(items[..i], items[i]);
      assert items[..i + 1] == items[..i] + [items[i]];
      text := text + items[i] + "\n";
      i := i + 1;
    }
    assert items[..|items|] == items;
  }

  /** Dropping a trailing carriage return keeps an item an item. */
  lemma StripCrKeepsItem(x: string)
    requires IsItem(x)
    ensures IsItem(StripCr(x))
  {
    if EndsWithCr(x) {
      var y := StripCr(x);
      assert x == y + "\r";
      IsItemIff(x);
      var i :| FirstNonWhitespaceAt(x, i) && x[i] != '#';
      assert i < |y|;
      assert y[..i] == x[..i];
      assert FirstNonWhitespaceAt(y, i) && y[i] != '#';
      IsItemIff(y);
    }
  }

  /** Whatever items are written, every line read back is an item: no comment or blank line is written. */
  lemma WrittenLinesAreItems(items: seq<string>)
    requires forall k :: 0 <= k < |items| ==> IsItem(items[k]) && '\n' !in items[k]
    ensures forall k :: 0 <= k < |Lines(WriteLines(items))| ==> IsItem(Lines(WriteLines(items))[k])
  {
    LinesOfWriteLines(items);
    forall k | 0 <= k < |items| ensures IsItem(StripCr(items[k])) {
      StripCrKeepsItem(items[k]);
    }
  }

  /** Items written one per line are read back through the filter unchanged. */
  lemma ItemsRoundTrip(items: seq<string>)
    requires forall k :: 0 <= k < |items| ==> IsItem(items[k]) && '\n' !in items[k]
    requires NoTrailingCr(items)
    ensures FileItems(Some(WriteLines(items))) == items
  {
    LinesRoundTrip(items);
    ItemsOfItems(items);
  }

  /** Filtering lines without a line feed gives items without one. */
  lemma {:induction false} ItemsHaveNoNewline(lines: seq<string>)
    requires forall k :: 0 <= k < |lines| ==> '\n' !in lines[k]
    ensures forall k :: 0 <= k < |Items(lines)| ==> '\n' !in Items(lines)[k]
  {
    if lines != [] {
      ItemsHaveNoNewline(lines[1..]);
    }
  }

  /** The items of a file contain no line feed. */
  lemma FileItemsHaveNoNewline(file: Option<string>)
    ensures forall k :: 0 <= k < |FileItems(file)| ==> IsItem(FileItems(file)[k]) && '\n' !in FileItems(file)[k]
  {
    if file.Some? {
      ItemsHaveNoNewline(Lines(file.value));
    }
  }

  /**
   * Splitting the items of the todo file into a batch and the rest, then writing both,
   * loses nothing and adds nothing: the batch read back followed by the rest read back
   * are the items that were there.
   */
  lemma BatchConservation(todo: string, n: nat)
    requires NoTrailingCr(FileItems(Some(todo)))
    requires n <= |FileItems(Some(todo))|
    ensures FileItems(Some(WriteLines(FileItems(Some(todo))[..n])))
          + FileItems(Some(WriteLines(FileItems(Some(todo))[n..]))) == FileItems(Some(todo))
  {
    FileItemsHaveNoNewline(Some(todo));
    SplitRoundTrip(FileItems(Some(todo)), n);
  }

  lemma SplitRoundTrip(items: seq<string>, n: nat)
    requires forall k :: 0 <= k < |items| ==> IsItem(items[k]) && '\n' !in items[k]
    requires NoTrailingCr(items)
    requires n <= |items|
    ensures FileItems(Some(WriteLines(items[..n]))) + FileItems(Some(WriteLines(items[n..]))) == items
  {
    assert WritableItems(items);
    WritableSlice(items, 0, n);
    WritableSlice(items, n, |items|);
    assert items[0..n] == items[..n] && items[n..|items|] == items[n..];
    ItemsRoundTrip(items[..n]);
    ItemsRoundTrip(items[n..]);
    assert items[..n] + items[n..] == items;
  }

  /** Items that survive being written and read back. */
  predicate WritableItems(items: seq<string>)
  {
    forall k :: 0 <= k < |items| ==> IsItem(items[k]) && '\n' !in items[k] && !EndsWithCr(items[k])
  }

  lemma WritableSlice(items: seq<string>, lo: nat, hi: nat)
    requires WritableItems(items) && lo <= hi <= |items|
    ensures forall k :: 0 <= k < hi - lo ==> IsItem(items[lo..hi][k]) && '\n' !in items[lo..hi][k]
    ensures NoTrailingCr(items[lo..hi])
  {
    forall k | 0 <= k < hi - lo
      ensures items[lo..hi][k] == items[lo + k]
    {
    }
  }

  // ---------------------------------------------------------------------------
  // The directory and the struct

  /** The work-lists directory: each file is absent (None) or holds its text. */
  class Directory {
    var todo: Option<string>
    var wip: Option<string>
    var completed: Option<string>

    constructor (todo: Option<string>, wip: Option<string>, completed: Option<string>)
      ensures this.todo == todo && this.wip == wip && this.completed == completed
    {
      this.todo, this.wip, this.completed := todo, wip, completed;
    }
  }

  function Min(a: nat, b: nat): nat
  {
    if a <= b then a else b
  }

  class WorkLists {
    const batchSize: nat
    const dir: Directory
    var wipList: seq<string>

    /** The struct built field by field. */
    constructor (batchSize: nat, dir: Directory, wipList: seq<string>)
      ensures this.batchSize == batchSize && this.dir == dir && this.wipList == wipList
    {
      this.batchSize, this.dir, this.wipList := batchSize, dir, wipList;
    }

    /** The wip file, read through the line filter, is the in-memory wip list. */
    predicate Consistent()
      reads this, dir
    {
      FileItems(dir.wip) == wipList
    }

    /**
     * `WorkLists::new`: fails if the todo file is absent; otherwise the wip list is the
     * whole filtered wip file (empty if there is none), whatever the batch size.
     */
    static method New(dir: Directory, batchSize: nat) returns (r: Result<WorkLists, WorkListError>)
      ensures dir.todo.None? ==> r == Failure(TodoFileMissing)
      ensures dir.todo.Some? ==>
        && r.Success? && fresh(r.value)
        && r.value.dir == dir && r.value.batchSize == batchSize
        && r.value.wipList == FileItems(dir.wip)
      ensures r.Success? ==> r.value.Consistent()
    {
      if dir.todo.None? {
        return Failure(TodoFileMissing);
      }
      var wl := new WorkLists(batchSize, dir, FileItems(dir.wip));
      return Success(wl);
    }

    /**
     * `mark_completed`: removes every occurrence of the item from the wip list, appends
     * the item to the completed file (created if need be, whether or not the item was in
     * progress), then rewrites the wip file from the remaining list; that last step fails
     * if there is no wip file.
     */
    method MarkCompleted(item: string) returns (r: Outcome<WorkListError>)
      modifies this, dir
      ensures wipList == Without(old(wipList), item)
      ensures dir.completed == Some(Contents(old(dir.completed)) + item + "\n")
      ensures dir.todo == old(dir.todo)
      ensures old(dir.wip).None? ==> r == Fail(WipFileMissing) && dir.wip == None
      ensures old(dir.wip).Some? ==> r == Pass && dir.wip == Some(WriteLines(wipList))
      ensures old(Consistent()) && NoTrailingCr(old(wipList)) && old(dir.wip).Some? ==> Consistent()
    {
      ghost var before := wipList;
      wipList := Without(wipList, item);
      dir.completed := Some(Contents(dir.completed) + item + "\n");
      if dir.wip.None? {
        return Fail(WipFileMissing);
      }
      var text := WriteItems(wipList);
      dir.wip := Some(text);
      r := Pass;
      if old(Consistent()) && NoTrailingCr(before) {
        FileItemsHaveNoNewline(old(dir.wip));
        ItemsRoundTrip(wipList);
      }
    }

    /** The first `batchSize` items, or all of them when there are fewer: `take` and the push loop. */
    static method TakeBatch(lines: seq<string>, batchSize: nat) returns (items: seq<string>)
      ensures items == lines[..Min(batchSize, |lines|)]
    {
      items := [];
      var i := 0;
      while i < |lines| && |items| < batchSize
        invariant 0 <= i <= |lines| && i <= batchSize
        invariant items == lines[..i]
      {
        items := items + [lines[i]];
        i := i + 1;
      }
    }

    /**
     * `next_batch`. With work in progress it only checks that the wip file still matches
     * the wip list, and changes nothing. Otherwise it takes the first `batchSize` items of
     * the todo file as the new wip list and wip file, and rewrites the todo file with the
     * remaining items only.
     */
    method NextBatch() returns (r: Outcome<WorkListError>)
      modifies this, dir
      ensures dir.completed == old(dir.completed)
      ensures old(wipList) != [] ==>
        && wipList == old(wipList) && dir.todo == old(dir.todo) && dir.wip == old(dir.wip)
        && (if FileItems(old(dir.wip)) == old(wipList) then r == Pass else r == Fail(InconsistentWipFileToList))
      ensures old(wipList) == [] && old(dir.todo).None? ==>
        r == Fail(TodoFileMissing) && wipList == [] && dir.todo == None && dir.wip == old(dir.wip)
      ensures old(wipList) == [] && old(dir.todo).Some? ==>
        var items := FileItems(old(dir.todo));
        var n := Min(batchSize, |items|);
        && r == Pass
        && wipList == items[..n]
        && dir.wip == Some(WriteLines(items[..n]))
        && dir.todo == Some(WriteLines(items[n..]))
        && (batchSize > 0 ==> (wipList == [] <==> items == []))
        && (NoTrailingCr(items) ==> Consistent())
    {
      if wipList != [] {
        var fromFile := FileItems(dir.wip);
        if fromFile == wipList {
          return Pass;
        }
        return Fail(InconsistentWipFileToList);
      }
      if dir.todo.None? {
        return Fail(TodoFileMissing);
      }
      var todoFile := dir.todo;
      var lines := FileItems(todoFile);
      var items := TakeBatch(lines, batchSize);
      var i := |items|;
      var wipText := WriteItems(items);
      var todoText := WriteItems(lines[i..]);
      if NoTrailingCr(lines) {
        FileItemsHaveNoNewline(todoFile);
        assert WritableItems(lines);
        WritableSlice(lines, 0, i);
        assert lines[0..i] == items;
        ItemsRoundTrip(items);
      }
      dir.wip := Some(wipText);
      dir.todo := Some(todoText);
      wipList := items;
      r := Pass;
    }
  }
}
