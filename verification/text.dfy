/**
 * Text handling shared by the work lists and the error formatter: Rust's notion of
 * whitespace, `trim_start`/`trim`, the line splitting of `BufRead::lines` and
 * `str::lines`, and the file text produced by writing each item with `writeln!`.
 */
module Text {

  /** Rust's `char::is_whitespace`: the Unicode White_Space property. */
  predicate IsWhitespace(c: char)
  {
    || c == ' '
    || ('\t' <= c <= '\r')
    || c == '\U{85}' || c == '\U{A0}' || c == '\U{1680}'
    || ('\U{2000}' <= c <= '\U{200A}')
    || c == '\U{2028}' || c == '\U{2029}' || c == '\U{202F}' || c == '\U{205F}' || c == '\U{3000}'
  }

  predicate AllWhitespace(s: string)
  {
    forall i :: 0 <= i < |s| ==> IsWhitespace(s[i])
  }

  /** `str::trim_start`: drops the leading whitespace. */
  function TrimStart(s: string): string
  {
    if s != [] && IsWhitespace(s[0]) then TrimStart(s[1..]) else s
  }

  /** `str::trim_end`: drops the trailing whitespace. */
  function TrimEnd(s: string): string
  {
    if s != [] && IsWhitespace(s[|s| - 1]) then TrimEnd(s[..|s| - 1]) else s
  }

  /** What `TrimStart` removes is whitespace, and what it keeps does not start with whitespace. */
  lemma {:induction false} TrimStartSpec(s: string)
    ensures var r := TrimStart(s);
      && |r| <= |s| && r == s[|s| - |r|..]
      && AllWhitespace(s[..|s| - |r|])
      && (r == [] || !IsWhitespace(r[0]))
  {
    if s != [] && IsWhitespace(s[0]) {
      var t := s[1..];
      TrimStartSpec(t);
      var r := TrimStart(t);
      var k := |s| - |r|;
      assert r == t[|t| - |r|..] == s[k..];
      forall i | 0 <= i < k
        ensures IsWhitespace(s[..k][i])
      {
        if i > 0 {
          assert s[..k][i] == t[..|t| - |r|][i - 1];
        }
      }
    }
  }

  /** What `TrimEnd` removes is whitespace, and what it keeps does not end with whitespace. */
  lemma {:induction false} TrimEndSpec(s: string)
    ensures var r := TrimEnd(s);
      && |r| <= |s| && r == s[..|r|]
      && AllWhitespace(s[|r|..])
      && (r == [] || !IsWhitespace(r[|r| - 1]))
  {
    if s != [] && IsWhitespace(s[|s| - 1]) {
      TrimEndSpec(s[..|s| - 1]);
      var r := TrimEnd(s);
      assert forall i :: 0 <= i < |s| - 1 - |r| ==> s[|r|..][i] == s[..|s| - 1][|r|..][i];
    }
  }

  /** `str::trim`: both ends. */
  function Trim(s: string): string
  {
    TrimEnd(TrimStart(s))
  }

  /** A string trims to nothing exactly when it is all whitespace. */
  lemma TrimEmptyIffAllWhitespace(s: string)
    ensures Trim(s) == [] <==> AllWhitespace(s)
  {
    var t := TrimStart(s);
    var k := |s| - |t|;
    TrimStartSpec(s);
    TrimEndSpec(t);
    assert forall i :: 0 <= i < |t| ==> t[i] == s[k + i];
    assert forall i :: 0 <= i < k ==> s[..k][i] == s[i];
    assert AllWhitespace(t[0..]) ==> AllWhitespace(t);
  }

  /** The position of the first occurrence of `c` in `s`. */
  function IndexOf(s: string, c: char): (i: nat)
    requires c in s
    ensures i < |s| && s[i] == c && c !in s[..i]
  {
    if s[0] == c then 0 else IndexOf(s[1..], c) + 1
  }

  lemma {:induction false} IndexOfAfterPrefix(a: string, c: char, b: string)
    requires c !in a
    ensures c in a + [c] + b && IndexOf(a + [c] + b, c) == |a|
  {
    var s := a + [c] + b;
    assert s[|a|] == c;
    if a != [] {
      assert s[1..] == a[1..] + [c] + b;
      IndexOfAfterPrefix(a[1..], c, b);
    }
  }

  /** The position of the last occurrence of `c`. */
  function LastIndexOf(s: string, c: char): (i: nat)
    requires c in s
    ensures i < |s| && s[i] == c && c !in s[i + 1..]
    decreases |s|
  {
    if s[|s| - 1] == c then |s| - 1
    else
      assert c in s[..|s| - 1] by {
        var k :| 0 <= k < |s| && s[k] == c;
        assert s[..|s| - 1][k] == c;
      }
      LastIndexOf(s[..|s| - 1], c)
  }

  /** The last `c` in `a + [c] + b` is the one after `a` when `b` holds none. */
  lemma LastIndexOfBeforeSuffix(a: string, c: char, b: string)
    requires c !in b
    ensures c in a + [c] + b && LastIndexOf(a + [c] + b, c) == |a|
  {
    var s := a + [c] + b;
    assert s[|a|] == c;
    var i := LastIndexOf(s, c);
  }

  predicate EndsWithCr(s: string)
  {
    |s| > 0 && s[|s| - 1] == '\r'
  }

  /** Removes one carriage return at the end, as `lines()` does before a line feed. */
  function StripCr(s: string): (r: string)
    ensures !EndsWithCr(s) ==> r == s
    ensures EndsWithCr(s) ==> r + "\r" == s
  {
    if EndsWithCr(s) then s[..|s| - 1] else s
  }

  /**
   * `BufRead::lines` (and `str::lines`): the text is cut after each '\n'; the '\n'
   * and one '\r' just before it are removed; a last piece without '\n' is kept as it
   * is; an empty text, or nothing after the last '\n', gives no further line.
   */
  function Lines(s: string): (ls: seq<string>)
    ensures forall k :: 0 <= k < |ls| ==> '\n' !in ls[k]
    decreases |s|
  {
    if s == [] then []
    else if '\n' !in s then [s]
    else
      var i := IndexOf(s, '\n');
      [StripCr(s[..i])] + Lines(s[i + 1..])
  }

  /** The text written by `writeln!(w, "{}", item)` for each item in turn. */
  function WriteLines(items: seq<string>): (s: string)
  {
    if items == [] then "" else items[0] + "\n" + WriteLines(items[1..])
  }

  lemma {:induction false} WriteLinesAppend(a: seq<string>, b: seq<string>)
    ensures WriteLines(a + b) == WriteLines(a) + WriteLines(b)
  {
    if a == [] {
      assert a + b == b;
    } else {
      assert (a + b)[0] == a[0];
      assert (a + b)[1..] == a[1..] + b;
      WriteLinesAppend(a[1..], b);
    }
  }

  /** What a writing loop has produced after its next item. */
  lemma WriteLinesSnoc(items: seq<string>, x: string)
    ensures WriteLines(items + [x]) == WriteLines(items) + x + "\n"
  {
    WriteLinesAppend(items, [x]);
    assert WriteLines([x]) == x + "\n" + WriteLines([]);
  }

  /** Each item with one trailing carriage return removed. */
  function StripCrEach(items: seq<string>): (r: seq<string>)
    ensures |r| == |items|
    ensures forall k :: 0 <= k < |items| ==> r[k] == StripCr(items[k])
  {
    if items == [] then [] else [StripCr(items[0])] + StripCrEach(items[1..])
  }

  /**
   * Reading back what was written one item per line gives each item with one
   * trailing carriage return removed, provided no item holds a line feed.
   */
  lemma {:induction false} LinesOfWriteLines(items: seq<string>)
    requires forall k :: 0 <= k < |items| ==> '\n' !in items[k]
    ensures Lines(WriteLines(items)) == StripCrEach(items)
  {
    if items != [] {
      var s := WriteLines(items);
      var rest := WriteLines(items[1..]);
      assert s == items[0] + "\n" + rest;
      IndexOfAfterPrefix(items[0], '\n', rest);
      var i := IndexOf(s, '\n');
      assert s[..i] == items[0];
      assert s[i + 1..] == rest;
      LinesOfWriteLines(items[1..]);
    }
  }

  /** Hence items with no line feed and no trailing carriage return read back unchanged. */
  lemma LinesRoundTrip(items: seq<string>)
    requires forall k :: 0 <= k < |items| ==> '\n' !in items[k] && !EndsWithCr(items[k])
    ensures Lines(WriteLines(items)) == items
  {
    LinesOfWriteLines(items);
    assert StripCrEach(items) == items;
  }

  /** An item that ends in a carriage return is read back without it. */
  lemma TrailingCrIsLost()
    ensures WriteLines(["k\r"]) == "k\r\n"
    ensures Lines(WriteLines(["k\r"])) == ["k"]
  {
    LinesOfWriteLines(["k\r"]);
    assert StripCr("k\r") == "k";
  }

  /** Joins the parts with the separator between them (`[String]::join`). */
  function Join(parts: seq<string>, sep: string): string
  {
    if parts == [] then ""
    else if |parts| == 1 then parts[0]
    else parts[0] + sep + Join(parts[1..], sep)
  }

  /** Cuts the text at every occurrence of `c` (`str::split`); the inverse of `Join`. */
  function Split(s: string, c: char): (parts: seq<string>)
    ensures |parts| >= 1
    decreases |s|
  {
    if c !in s then [s]
    else
      var i := IndexOf(s, c);
      [s[..i]] + Split(s[i + 1..], c)
  }

  /** Joining parts that do not contain the separator can be undone by splitting. */
  lemma {:induction false} SplitJoin(parts: seq<string>, c: char)
    requires parts != []
    requires forall k :: 0 <= k < |parts| ==> c !in parts[k]
    ensures Split(Join(parts, [c]), c) == parts
  {
    if |parts| > 1 {
      var rest := Join(parts[1..], [c]);
      assert Join(parts, [c]) == parts[0] + [c] + rest;
      IndexOfAfterPrefix(parts[0], c, rest);
      var s := Join(parts, [c]);
      var i := IndexOf(s, c);
      assert s[..i] == parts[0];
      assert s[i + 1..] == rest;
      SplitJoin(parts[1..], c);
    }
  }
}
