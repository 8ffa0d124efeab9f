/**
 * Text helpers the snippet code relies on: a one-character `replace`, a
 * separator `join`, and `Split`, the row-by-row reading of a text that the
 * row-shape lemmas are stated with.
 */
module Text {

  /** How many times `c` occurs in `s`. */
  function Occurrences(s: string, c: char): nat
  {
    if s == [] then 0 else (if s[0] == c then 1 else 0) + Occurrences(s[1..], c)
  }

  /** `s` with every occurrence of `c` replaced by `t`, in a single left-to-right
      pass: text produced by a replacement is never scanned again. */
  function ReplaceChar(s: string, c: char, t: string): (r: string)
    ensures |r| + Occurrences(s, c) == |s| + Occurrences(s, c) * |t|
    ensures c !in s ==> r == s
  {
    if s == [] then []
    else
      var rest := ReplaceChar(s[1..], c, t);
      if s[0] == c then t + rest else [s[0]] + rest
  }

  lemma {:induction false} ReplaceCharAppend(a: string, b: string, c: char, t: string)
    ensures ReplaceChar(a + b, c, t) == ReplaceChar(a, c, t) + ReplaceChar(b, c, t)
  {
    if a == [] {
      assert a + b == b;
    } else {
      assert (a + b)[0] == a[0];
      assert (a + b)[1..] == a[1..] + b;
      ReplaceCharAppend(a[1..], b, c, t);
    }
  }

  /** A slice inside a prefix of a text is the same slice of the text. */
  lemma SliceOfPrefix(a: string, r: string, i: nat, j: nat)
    requires |a| <= |r| && r[..|a|] == a && i <= j <= |a|
    ensures r[i..j] == a[i..j]
  {
    assert forall k :: i <= k < j ==> r[k] == r[..|a|][k];
  }

  /** The combined length of the rows. */
  function TotalLength(rows: seq<string>): nat
  {
    if rows == [] then 0 else |rows[0]| + TotalLength(rows[1..])
  }

  /** The rows, with `sep` between each two of them and nowhere else: the
      text starts with the first row, and one separator fewer than there are
      rows is added to their combined length. */
  function Join(rows: seq<string>, sep: string): (r: string)
    ensures |rows| > 0 ==> |r| + |sep| == TotalLength(rows) + |rows| * |sep|
    ensures |rows| > 0 ==> rows[0] <= r
  {
    if |rows| == 0 then []
    else if |rows| == 1 then rows[0]
    else rows[0] + sep + Join(rows[1..], sep)
  }

  /** The pieces of `s` between the occurrences of `sep`: one more piece than
      there are separators. */
  function Split(s: string, sep: char): (r: seq<string>)
    ensures |r| == Occurrences(s, sep) + 1
  {
    if s == [] then [[]]
    else
      var rest := Split(s[1..], sep);
      if s[0] == sep then [[]] + rest
      else [[s[0]] + rest[0]] + rest[1..]
  }

  lemma {:induction false} SplitAround(x: string, y: string, sep: char)
    ensures Split(x + [sep] + y, sep) == Split(x, sep) + Split(y, sep)
  {
    var s := x + [sep] + y;
    if x == [] {
      assert s[1..] == y;
    } else {
      assert s[0] == x[0];
      assert s[1..] == x[1..] + [sep] + y;
      SplitAround(x[1..], y, sep);
    }
  }

  lemma {:induction false} SplitWithoutSep(s: string, sep: char)
    requires sep !in s
    ensures Split(s, sep) == [s]
  {
    if s != [] {
      SplitWithoutSep(s[1..], sep);
      assert s == [s[0]] + s[1..];
    }
  }

  /** A last piece without the separator is read back as one row. */
  lemma SplitThenRow(x: string, row: string, sep: char)
    requires sep !in row
    ensures Split(x + [sep] + row, sep) == Split(x, sep) + [row]
  {
    SplitAround(x, row, sep);
    SplitWithoutSep(row, sep);
  }

  /** A first piece without the separator is read back as one row. */
  lemma SplitRowThen(row: string, y: string, sep: char)
    requires sep !in row
    ensures Split(row + [sep] + y, sep) == [row] + Split(y, sep)
  {
    SplitAround(row, y, sep);
    SplitWithoutSep(row, sep);
  }

  /** Six pieces joined by the separator, of which all but the third hold no
      separator, are read back as five rows around the rows of the third. */
  lemma SplitFrame(a: string, b: string, mid: string, d: string, e: string, f: string, sep: char)
    requires sep !in a && sep !in b && sep !in d && sep !in e && sep !in f
    ensures Split(a + [sep] + b + [sep] + mid + [sep] + d + [sep] + e + [sep] + f, sep)
         == [a, b] + Split(mid, sep) + [d, e, f]
  {
    var x1 := a + [sep] + b;
    var x2 := x1 + [sep] + mid;
    var x3 := x2 + [sep] + d;
    var x4 := x3 + [sep] + e;
    SplitRowThen(a, b, sep);
    SplitWithoutSep(b, sep);
    SplitAround(x1, mid, sep);
    SplitThenRow(x2, d, sep);
    SplitThenRow(x3, e, sep);
    SplitThenRow(x4, f, sep);
  }

  /** Reading a joined text back by rows gives the rows, when no row holds the separator. */
  lemma {:induction false} SplitJoin(rows: seq<string>, sep: char)
    requires |rows| > 0
    requires forall i :: 0 <= i < |rows| ==> sep !in rows[i]
    ensures Split(Join(rows, [sep]), sep) == rows
  {
    if |rows| == 1 {
      SplitWithoutSep(rows[0], sep);
    } else {
      SplitJoin(rows[1..], sep);
      SplitAround(rows[0], Join(rows[1..], [sep]), sep);
      SplitWithoutSep(rows[0], sep);
      assert rows == [rows[0]] + rows[1..];
    }
  }

  /** Joining the rows of a text gives the text back. */
  lemma {:induction false} JoinSplit(s: string, sep: char)
    ensures Join(Split(s, sep), [sep]) == s
  {
    if s != [] {
      JoinSplit(s[1..], sep);
      var rest := Split(s[1..], sep);
      if s[0] == sep {
        assert Split(s, sep) == [[]] + rest;
        if |rest| == 1 {
          assert Join(Split(s, sep), [sep]) == [] + [sep] + rest[0];
        } else {
          assert ([[]] + rest)[1..] == rest;
        }
      } else {
        var r := Split(s, sep);
        assert r == [[s[0]] + rest[0]] + rest[1..];
        if |rest| > 1 {
          assert r[1..] == rest[1..];
          assert Join(rest, [sep]) == rest[0] + [sep] + Join(rest[1..], [sep]);
        }
      }
    }
  }
}
