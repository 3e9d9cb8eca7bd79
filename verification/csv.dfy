/**
 * The `complete` callback `handleFileUpload` hands to the CSV parser (scripts.js): the first
 * cell of every row becomes a post, trimmed, and empty posts are dropped. The parser itself
 * is not part of this model; its rows arrive as values, a cell being `None` when it is
 * `null` or `undefined`.
 */
module CsvImport {
  import opened Options
  import opened Strings

  type Cell = Option<string>
  type Row = seq<Cell>

  /** The post one row contributes: its trimmed first cell, unless that is missing or blank. */
  function RowPost(row: Row): seq<string>
  {
    match FirstCell(row)
    case Some(p) => if p != "" then [p] else []
    case None => []
  }

  /** `String(row[0]).trim()` when the row has a first cell that is neither `null` nor `undefined`. */
  function FirstCell(row: Row): Option<string>
  {
    if |row| > 0 && row[0].Some? then Some(Trim(row[0].value)) else None
  }

  /** Reference definition of the import, row by row in file order. */
  function CsvPosts(rows: seq<Row>): seq<string>
  {
    if rows == [] then [] else RowPost(rows[0]) + CsvPosts(rows[1..])
  }

  /** Rows contribute independently and in order. */
  lemma {:induction false} CsvPostsAppend(a: seq<Row>, b: seq<Row>)
    ensures CsvPosts(a + b) == CsvPosts(a) + CsvPosts(b)
  {
    if a == [] {
      assert a + b == b;
    } else {
      assert (a + b)[1..] == a[1..] + b;
      CsvPostsAppend(a[1..], b);
    }
  }

  /** Every imported post is non-empty and trimmed, and there are at most as many posts as rows. */
  lemma {:induction false} CsvPostsShape(rows: seq<Row>)
    ensures |CsvPosts(rows)| <= |rows|
    ensures forall p | p in CsvPosts(rows) :: p != "" && IsTrimmed(p)
  {
    if rows != [] {
      CsvPostsShape(rows[1..]);
      RowPostShape(rows[0]);
      assert CsvPosts(rows) == RowPost(rows[0]) + CsvPosts(rows[1..]);
    }
  }

  /** A row contributes at most one post, and that post is non-empty and trimmed. */
  lemma RowPostShape(row: Row)
    ensures |RowPost(row)| <= 1
    ensures forall p | p in RowPost(row) :: p != "" && IsTrimmed(p)
  {
    if FirstCell(row).Some? {
      var _, _ := TrimSlice(row[0].value);
    }
  }

  /** Every imported post is the trimmed first cell of some row. */
  lemma {:induction false} CsvPostsFromFirstCells(rows: seq<Row>, p: string)
    requires p in CsvPosts(rows)
    ensures exists i | 0 <= i < |rows| :: FirstCell(rows[i]) == Some(p)
  {
    if p in RowPost(rows[0]) {
      assert FirstCell(rows[0]) == Some(p);
    } else {
      CsvPostsFromFirstCells(rows[1..], p);
      var i :| 0 <= i < |rows[1..]| && FirstCell(rows[1..][i]) == Some(p);
      assert rows[i + 1] == rows[1..][i];
    }
  }

  /** Every row whose first cell holds non-blank text yields a post. */
  lemma RowWithTextYieldsPost(rows: seq<Row>, i: nat)
    requires i < |rows| && FirstCell(rows[i]).Some? && FirstCell(rows[i]).value != ""
    ensures FirstCell(rows[i]).value in CsvPosts(rows)
  {
    var p := FirstCell(rows[i]).value;
    CsvPostsAround(rows, i);
    assert RowPost(rows[i]) == [p];
    var pre := CsvPosts(rows[..i]);
    assert CsvPosts(rows)[|pre|] == p;
  }

  /** The posts of the rows before row `i`, then row `i`'s, then those of the rows after it. */
  lemma CsvPostsAround(rows: seq<Row>, i: nat)
    requires i < |rows|
    ensures CsvPosts(rows) == CsvPosts(rows[..i]) + RowPost(rows[i]) + CsvPosts(rows[i + 1..])
  {
    var rest := rows[i..];
    assert rows == rows[..i] + rest;
    CsvPostsAppend(rows[..i], rest);
    assert rest[0] == rows[i] && rest[1..] == rows[i + 1..];
  }

  lemma {:induction false} DropEmptyPush(xs: seq<string>, x: string)
    ensures DropEmpty(xs + [x]) == DropEmpty(xs) + (if x == "" then [] else [x])
    decreases |xs|
  {
    if xs == [] {
      assert xs + [x] == [x];
      assert DropEmpty([x]) == (if x == "" then [] else [x]) + DropEmpty([]);
    } else {
      var ys := xs + [x];
      assert ys[0] == xs[0] && ys[1..] == xs[1..] + [x];
      DropEmptyPush(xs[1..], x);
    }
  }

  /**
   * The `complete` callback: push `String(row[0]).trim()` for every row whose first cell is
   * present, then drop the empty strings. A missing `data` array yields no posts.
   */
  method CollectCsvPosts(data: Option<seq<Row>>) returns (posts: seq<string>)
    ensures posts == if data.Some? then CsvPosts(data.value) else []
  {
    var parsed: seq<string> := [];
    if data.Some? {
      var rows := data.value;
      for i := 0 to |rows|
        invariant DropEmpty(parsed) == CsvPosts(rows[..i])
      {
        CollectStep(parsed, rows, i);
        if FirstCell(rows[i]).Some? {
          parsed := parsed + [FirstCell(rows[i]).value];
        }
      }
      assert rows[..|rows|] == rows;
    }
    posts := DropEmpty(parsed);
  }

  /** One more row: the reference definition grows by that row's post, and so does the filtered push list. */
  lemma CollectStep(parsed: seq<string>, rows: seq<Row>, i: nat)
    requires i < |rows|
    ensures CsvPosts(rows[..i + 1]) == CsvPosts(rows[..i]) + RowPost(rows[i])
    ensures FirstCell(rows[i]).Some? ==>
              DropEmpty(parsed + [FirstCell(rows[i]).value]) == DropEmpty(parsed) + RowPost(rows[i])
    ensures FirstCell(rows[i]).None? ==> RowPost(rows[i]) == []
  {
    assert rows[..i + 1] == rows[..i] + [rows[i]];
    CsvPostsAppend(rows[..i], [rows[i]]);
    assert CsvPosts([rows[i]]) == RowPost(rows[i]) + CsvPosts([]);
    if FirstCell(rows[i]).Some? {
      DropEmptyPush(parsed, FirstCell(rows[i]).value);
    }
  }
}
