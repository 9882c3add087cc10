/** The grid part of the page as the sequence of written chunks: per grid
    row `<tr>`, then per cell `<td>`, the cell's markup and `</td>`, then
    `</tr>`. `ParseTable` reads such a chunk sequence back into rows of
    cells. */
module Table {
  import opened Wrappers

  const RowOpen: string := "<tr>"
  const RowClose: string := "</tr>"
  const CellOpen: string := "<td>"
  const CellClose: string := "</td>"

  /** The chunks written for the cells of one row. */
  function RowChunks(cells: seq<string>): seq<string>
    decreases |cells|
  {
    if |cells| == 0 then [] else [CellOpen, cells[0], CellClose] + RowChunks(cells[1..])
  }

  /** The chunks written for a whole table, rows in order. */
  function TableChunks(rows: seq<seq<string>>): seq<string>
    decreases |rows|
  {
    if |rows| == 0 then [] else [RowOpen] + RowChunks(rows[0]) + [RowClose] + TableChunks(rows[1..])
  }

  /** Reads `<td>`, x, `</td>` groups up to and including the closing
      `</tr>`; returns the cells and what follows the row. */
  function ParseCells(cs: seq<string>): (r: Option<(seq<string>, seq<string>)>)
    ensures r.Some? ==> |r.value.1| < |cs|
    decreases |cs|
  {
    if 1 <= |cs| && cs[0] == RowClose then Some(([], cs[1..]))
    else if 3 <= |cs| && cs[0] == CellOpen && cs[2] == CellClose then
      match ParseCells(cs[3..])
      case None => None
      case Some(pr) => Some(([cs[1]] + pr.0, pr.1))
    else None
  }

  /** Reads a whole chunk sequence of `<tr>` ... `</tr>` groups. */
  function ParseTable(cs: seq<string>): Option<seq<seq<string>>>
    decreases |cs|
  {
    if |cs| == 0 then Some([])
    else if cs[0] != RowOpen then None
    else match ParseCells(cs[1..])
      case None => None
      case Some(pr) =>
        match ParseTable(pr.1)
        case None => None
        case Some(rows) => Some([pr.0] + rows)
  }

  lemma {:induction false} ParseRowChunks(cells: seq<string>, tail: seq<string>)
    ensures ParseCells(RowChunks(cells) + [RowClose] + tail) == Some((cells, tail))
    decreases |cells|
  {
    var cs := RowChunks(cells) + [RowClose] + tail;
    if |cells| == 0 {
      assert cs == [RowClose] + tail;
      assert cs[1..] == tail;
    } else {
      ParseRowChunks(cells[1..], tail);
      assert cs == [CellOpen, cells[0], CellClose] + (RowChunks(cells[1..]) + [RowClose] + tail);
      assert cs[3..] == RowChunks(cells[1..]) + [RowClose] + tail;
      assert [cells[0]] + cells[1..] == cells;
    }
  }

  /** The written chunks determine the table: reading them back gives the
      same rows, each with the same cells in the same order. */
  lemma {:induction false} TableRoundTrip(rows: seq<seq<string>>)
    ensures ParseTable(TableChunks(rows)) == Some(rows)
    decreases |rows|
  {
    if |rows| > 0 {
      var rest := TableChunks(rows[1..]);
      var cs := TableChunks(rows);
      assert cs == [RowOpen] + (RowChunks(rows[0]) + [RowClose] + rest);
      assert cs[1..] == RowChunks(rows[0]) + [RowClose] + rest;
      ParseRowChunks(rows[0], rest);
      TableRoundTrip(rows[1..]);
      assert [rows[0]] + rows[1..] == rows;
    }
  }

  /** A row of `n` cells takes `3 n` chunks; cell `k` sits at `3 k + 1`
      between `<td>` and `</td>`. */
  lemma {:induction false} RowShape(cells: seq<string>)
    ensures |RowChunks(cells)| == 3 * |cells|
    ensures forall k :: 0 <= k < |cells| ==>
      && RowChunks(cells)[3 * k] == CellOpen
      && RowChunks(cells)[3 * k + 1] == cells[k]
      && RowChunks(cells)[3 * k + 2] == CellClose
    decreases |cells|
  {
    if |cells| > 0 {
      RowShape(cells[1..]);
      var rc := RowChunks(cells);
      assert rc == [CellOpen, cells[0], CellClose] + RowChunks(cells[1..]);
      forall k | 1 <= k < |cells|
        ensures rc[3 * k] == CellOpen && rc[3 * k + 1] == cells[k] && rc[3 * k + 2] == CellClose
      {
        assert rc[3 * k] == RowChunks(cells[1..])[3 * (k - 1)];
        assert rc[3 * k + 1] == RowChunks(cells[1..])[3 * (k - 1) + 1];
        assert rc[3 * k + 2] == RowChunks(cells[1..])[3 * (k - 1) + 2];
      }
    }
  }
}
