/** The active worksheet of a spreadsheet document, reduced to what the
    exporter does with it: cells addressed by strings such as "A2", written
    one after another, a later write to an address replacing the earlier one. */
module Worksheet {
  import opened Wrappers
  import opened PhpValues

  /** How a cell's data type was decided: left to the spreadsheet library
      (`setCellValue`) or passed explicitly (`setCellValueExplicit`). */
  datatype CellType = Inferred | Explicit(dataType: Value)

  datatype Cell = Cell(value: Value, cellType: CellType)

  type Sheet = map<string, Cell>

  /** One cell write. */
  datatype CellWrite = CellWrite(address: string, cell: Cell)

  /** The addresses a sequence of writes touches. */
  function Addresses(ws: seq<CellWrite>): set<string> {
    set k | 0 <= k < |ws| :: ws[k].address
  }

  /** The writes performed one after another on `sheet`. */
  function WriteAll(sheet: Sheet, ws: seq<CellWrite>): (r: Sheet)
    ensures r.Keys == sheet.Keys + Addresses(ws)
    decreases |ws|
  {
    if ws == [] then sheet
    else
      var first := ws[0];
      var rest := ws[1..];
      assert Addresses(ws) == {first.address} + Addresses(rest) by {
        forall a | a in Addresses(ws) ensures a in {first.address} + Addresses(rest) {
          var k :| 0 <= k < |ws| && ws[k].address == a;
          if k > 0 { assert rest[k - 1] == ws[k]; }
        }
        forall a | a in Addresses(rest) ensures a in Addresses(ws) {
          var k :| 0 <= k < |rest| && rest[k].address == a;
          assert ws[k + 1] == rest[k];
        }
      }
      WriteAll(sheet[first.address := first.cell], rest)
  }

  /** No later write touches the address of write `k`. */
  predicate IsLastAt(ws: seq<CellWrite>, k: nat)
    requires k < |ws|
  {
    forall k' :: k < k' < |ws| ==> ws[k'].address != ws[k].address
  }

  /** The cell of the last write to `a`, found by scanning the writes
      backwards; `None` when no write touches `a`. */
  function LastWrite(ws: seq<CellWrite>, a: string): (r: Option<Cell>)
    ensures r.None? <==> a !in Addresses(ws)
    ensures r.Some? ==> exists k :: 0 <= k < |ws| && ws[k] == CellWrite(a, r.value) && IsLastAt(ws, k)
    decreases |ws|
  {
    if ws == [] then None
    else if ws[|ws| - 1].address == a then Some(ws[|ws| - 1].cell)
    else
      var init := ws[..|ws| - 1];
      assert Addresses(ws) == Addresses(init) + {ws[|ws| - 1].address} by {
        forall b | b in Addresses(ws) ensures b in Addresses(init) + {ws[|ws| - 1].address} {
          var k :| 0 <= k < |ws| && ws[k].address == b;
          if k < |ws| - 1 { assert init[k] == ws[k]; }
        }
        forall b | b in Addresses(init) ensures b in Addresses(ws) {
          var k :| 0 <= k < |init| && init[k].address == b;
          assert ws[k] == init[k];
        }
      }
      LastWrite(init, a)
  }

  /** A write sequence split in two is the second part performed on the
      result of the first. */
  lemma {:induction false} WriteAllAppend(sheet: Sheet, ws1: seq<CellWrite>, ws2: seq<CellWrite>)
    ensures WriteAll(sheet, ws1 + ws2) == WriteAll(WriteAll(sheet, ws1), ws2)
    decreases |ws1|
  {
    if ws1 != [] {
      assert (ws1 + ws2)[0] == ws1[0];
      assert (ws1 + ws2)[1..] == ws1[1..] + ws2;
      WriteAllAppend(sheet[ws1[0].address := ws1[0].cell], ws1[1..], ws2);
    } else {
      assert ws1 + ws2 == ws2;
    }
  }

  /** The last write wins: after the writes, an address holds the cell of
      the last write to it, and an address no write touches keeps its cell. */
  lemma {:induction false} WriteAllLastWins(sheet: Sheet, ws: seq<CellWrite>, a: string)
    ensures LastWrite(ws, a).Some? ==> WriteAll(sheet, ws)[a] == LastWrite(ws, a).value
    ensures LastWrite(ws, a).None? && a in sheet ==> WriteAll(sheet, ws)[a] == sheet[a]
    decreases |ws|
  {
    if ws != [] {
      var init, last := ws[..|ws| - 1], ws[|ws| - 1];
      assert ws == init + [last];
      WriteAllAppend(sheet, init, [last]);
      assert WriteAll(WriteAll(sheet, init), [last]) == WriteAll(sheet, init)[last.address := last.cell];
      WriteAllLastWins(sheet, init, a);
    }
  }
}
