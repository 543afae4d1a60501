/** `build_excel` of src/fetch_account_data.py reduced to its cell coordinates:
    branch office `i` fills column `2 + i`, its display name in row 2 and each
    counter in row `3 + k`, where `k` is the position of the counter's row name in
    the template's row table. The workbook is a map from cells to values; writes
    are applied in order and a later write to a cell replaces an earlier one. */
module ExcelReport {
  import opened Wrappers
  import Text
  import Collections
  import CompanyNames
  import Metrics
  import opened Variants

  /** One entry of `DATA_ROW_MAP`: a template row name and the counter it shows. */
  datatype RowLink = RowLink(rowName: string, dataKey: string)

  const RowMap: seq<RowLink> := [
    RowLink("本周期户表应出账", "本周期户表应出账(支)"),
    RowLink("本周期户表实际出账", "本周期户表出账(支)"),
    RowLink("上周期户表实际出账", "上周期户表出账(支)"),
    RowLink("去年同期户表实际出账", "去年周期户表出账(支)"),
    RowLink("本周期大路表应出账", "本周期大路表应出账(支)"),
    RowLink("本周期大路表实际出账", "本周期大路表出账(支)"),
    RowLink("上周期大路表实际出账", "上周期大路表出账(支)"),
    RowLink("去年同期大路表实际出账", "去年周期大路表出账(支)")
  ]

  const StartColumn: nat := 2
  const HeaderRow: nat := 2
  const FirstDataRow: nat := 3

  function DataKeyOf(link: RowLink): string {
    link.dataKey
  }

  /** `DATA_KEY_TO_ROW = {v: k for k, v in DATA_ROW_MAP.items()}`. */
  function KeyToRow(): map<string, RowLink> {
    Collections.IndexBy(RowMap, DataKeyOf)
  }

  /** `list(DATA_ROW_MAP.keys())`. */
  function RowNames(): (names: seq<string>)
    ensures |names| == |RowMap| && forall k :: 0 <= k < |RowMap| ==> names[k] == RowMap[k].rowName
  {
    seq(|RowMap|, k requires 0 <= k < |RowMap| => RowMap[k].rowName)
  }

  lemma RowMapDistinct()
    ensures forall j, k :: 0 <= j < k < |RowMap| ==> RowMap[j].rowName != RowMap[k].rowName
    ensures forall j, k :: 0 <= j < k < |RowMap| ==> RowMap[j].dataKey != RowMap[k].dataKey
  {
  }

  /** `DATA_KEY_TO_ROW` is the exact inverse of `DATA_ROW_MAP`: its keys are the
      counters of the table and each leads back to its own row. */
  lemma KeyToRowInverse()
    ensures KeyToRow().Keys == set k | 0 <= k < |RowMap| :: RowMap[k].dataKey
    ensures forall k :: 0 <= k < |RowMap| ==> KeyToRow()[RowMap[k].dataKey] == RowMap[k]
  {
    RowMapDistinct();
    forall k | 0 <= k < |RowMap| ensures KeyToRow()[RowMap[k].dataKey] == RowMap[k] {
      assert Collections.IsLastWithKey(RowMap, DataKeyOf, k);
      Collections.IndexByLast(RowMap, DataKeyOf, k);
    }
    forall key | key in KeyToRow() ensures exists k :: 0 <= k < |RowMap| && RowMap[k].dataKey == key {
      Collections.IndexByKeys(RowMap, DataKeyOf, key);
    }
  }

  /** `names.index(name)`; `None` stands for the `ValueError` on a missing name. */
  function IndexOf(names: seq<string>, name: string): (r: Option<nat>)
    ensures r.None? <==> name !in names
    ensures r.Some? ==> r.value < |names| && names[r.value] == name &&
                        forall j :: 0 <= j < r.value ==> names[j] != name
    decreases |names|
  {
    if |names| == 0 then None
    else if names[0] == name then Some(0)
    else
      assert forall j :: 1 <= j < |names| ==> names[1..][j - 1] == names[j];
      match IndexOf(names[1..], name)
      case None => None
      case Some(j) => Some(j + 1)
  }

  /** The row a counter is written to: the position of its row name plus 3. The
      `ValueError` branch, which skips the counter, is kept. */
  function DataRow(key: string): Option<nat> {
    if key in KeyToRow() then
      match IndexOf(RowNames(), KeyToRow()[key].rowName)
      case None => None
      case Some(index) => Some(index + FirstDataRow)
    else None
  }

  /** In a list without repetitions, `index` finds every element at its own position. */
  lemma IndexOfDistinct(names: seq<string>, k: nat)
    requires k < |names|
    requires forall i, j :: 0 <= i < j < |names| ==> names[i] != names[j]
    ensures IndexOf(names, names[k]) == Some(k)
  {
  }

  /** The counter of table entry `k` lands in row `3 + k`. */
  lemma DataRowOfLink(k: nat)
    requires k < |RowMap|
    ensures DataRow(RowMap[k].dataKey) == Some(FirstDataRow + k)
  {
    KeyToRowInverse();
    RowMapDistinct();
    var names := RowNames();
    IndexOfDistinct(names, k);
  }

  datatype Cell = Cell(row: nat, column: nat)

  datatype CellValue = TextValue(text: string) | Number(n: int)

  /** `ws.cell(row=..., column=..., value=...)`. */
  datatype Write = Write(cell: Cell, value: CellValue)

  type Sheet = map<Cell, CellValue>

  /** The writes applied in order. */
  function Apply(sheet: Sheet, writes: seq<Write>): Sheet
    decreases |writes|
  {
    if |writes| == 0 then sheet
    else
      var last := writes[|writes| - 1];
      Apply(sheet, writes[..|writes| - 1])[last.cell := last.value]
  }

  /** The value of the last write to a cell, if any: an independent reading of
      what the cell holds after the writes. */
  function LastWriteTo(writes: seq<Write>, cell: Cell): Option<CellValue>
    decreases |writes|
  {
    if |writes| == 0 then None
    else if writes[|writes| - 1].cell == cell then Some(writes[|writes| - 1].value)
    else LastWriteTo(writes[..|writes| - 1], cell)
  }

  /** `LastWriteTo` finds nothing iff no write goes to the cell, and otherwise the
      value of a write to the cell after which the cell is not written again. */
  lemma {:induction false} LastWriteToMeaning(writes: seq<Write>, cell: Cell)
    ensures LastWriteTo(writes, cell).None? <==> forall j :: 0 <= j < |writes| ==> writes[j].cell != cell
    ensures LastWriteTo(writes, cell).Some? ==>
              exists j :: 0 <= j < |writes| && writes[j] == Write(cell, LastWriteTo(writes, cell).value) &&
                          forall l :: j < l < |writes| ==> writes[l].cell != cell
    decreases |writes|
  {
    if |writes| > 0 {
      var init := writes[..|writes| - 1];
      LastWriteToMeaning(init, cell);
      assert forall j :: 0 <= j < |init| ==> init[j] == writes[j];
    }
  }

  /** Writes that all avoid a cell leave it alone. */
  lemma Untouched(writes: seq<Write>, cell: Cell)
    requires forall j :: 0 <= j < |writes| ==> writes[j].cell != cell
    ensures LastWriteTo(writes, cell).None?
  {
    LastWriteToMeaning(writes, cell);
  }

  /** A cell holds its last write, or keeps what it held when nothing was written to it. */
  predicate Holds(sheet: Sheet, template: Sheet, writes: seq<Write>, cell: Cell) {
    match LastWriteTo(writes, cell)
    case Some(v) => cell in sheet && sheet[cell] == v
    case None => (cell in sheet <==> cell in template) && (cell in template ==> sheet[cell] == template[cell])
  }

  lemma {:induction false} ApplyIsLastWrite(sheet: Sheet, writes: seq<Write>, cell: Cell)
    ensures Holds(Apply(sheet, writes), sheet, writes, cell)
    decreases |writes|
  {
    if |writes| > 0 {
      ApplyIsLastWrite(sheet, writes[..|writes| - 1], cell);
    }
  }

  lemma {:induction false} LastWriteAppend(a: seq<Write>, b: seq<Write>, cell: Cell)
    ensures LastWriteTo(a + b, cell) == if LastWriteTo(b, cell).Some? then LastWriteTo(b, cell) else LastWriteTo(a, cell)
    decreases |b|
  {
    if |b| == 0 {
      assert a + b == a;
    } else {
      assert (a + b)[..|a + b| - 1] == a + b[..|b| - 1];
      LastWriteAppend(a, b[..|b| - 1], cell);
    }
  }

  /** Every write goes to `column`, in a row from `low` up to but excluding `high`. */
  predicate InBand(writes: seq<Write>, column: nat, low: nat, high: nat) {
    forall j :: 0 <= j < |writes| ==> writes[j].cell.column == column && low <= writes[j].cell.row < high
  }

  lemma InBandPrepend(w: Write, rest: seq<Write>, column: nat, low: nat, high: nat)
    requires w.cell.column == column && low <= w.cell.row < high
    requires InBand(rest, column, w.cell.row + 1, high)
    ensures InBand([w] + rest, column, low, high)
  {
    assert forall j :: 0 < j < |rest| + 1 ==> ([w] + rest)[j] == rest[j - 1];
  }

  /** The counter writes of one column for table entries `k` onwards: a counter
      present in the data is written to its row, an absent one is skipped. */
  function DataWritesFrom(column: nat, data: seq<Metrics.Entry>, k: nat): (writes: seq<Write>)
    requires k <= |RowMap|
    ensures InBand(writes, column, FirstDataRow + k, FirstDataRow + |RowMap|)
    decreases |RowMap| - k
  {
    if k == |RowMap| then []
    else
      var key := RowMap[k].dataKey;
      var rest := DataWritesFrom(column, data, k + 1);
      match Metrics.Lookup(data, key)
      case None => rest
      case Some(v) =>
        match DataRow(key)
        case None => rest
        case Some(row) =>
          DataRowOfLink(k);
          InBandPrepend(Write(Cell(row, column), Number(v)), rest, column, FirstDataRow + k, FirstDataRow + |RowMap|);
          [Write(Cell(row, column), Number(v))] + rest
  }

  /** The counter cell of table entry `k` ends up holding the counter when the data
      has it, and is not written otherwise. */
  lemma {:induction false} DataWritesCell(column: nat, data: seq<Metrics.Entry>, k: nat, target: nat)
    requires k <= target < |RowMap|
    ensures LastWriteTo(DataWritesFrom(column, data, k), Cell(FirstDataRow + target, column)) ==
            match Metrics.Lookup(data, RowMap[target].dataKey)
            case Some(v) => Some(Number(v))
            case None => None
    decreases |RowMap| - k
  {
    DataWritesStep(column, data, k);
    if k < target {
      DataWritesCell(column, data, k + 1, target);
      EarlierEntrySkipped(column, data, k, target);
    } else {
      OwnEntryWritten(column, data, k);
    }
  }

  /** Entry `k`'s own cell is written by entry `k` alone. */
  lemma OwnEntryWritten(column: nat, data: seq<Metrics.Entry>, k: nat)
    requires k < |RowMap|
    requires DataWritesFrom(column, data, k) ==
             match Metrics.Lookup(data, RowMap[k].dataKey)
             case None => DataWritesFrom(column, data, k + 1)
             case Some(v) => [Write(Cell(FirstDataRow + k, column), Number(v))] + DataWritesFrom(column, data, k + 1)
    ensures LastWriteTo(DataWritesFrom(column, data, k), Cell(FirstDataRow + k, column)) ==
            match Metrics.Lookup(data, RowMap[k].dataKey)
            case Some(v) => Some(Number(v))
            case None => None
  {
    var cell := Cell(FirstDataRow + k, column);
    var rest := DataWritesFrom(column, data, k + 1);
    RowsBelowUntouched(rest, cell);
    match Metrics.Lookup(data, RowMap[k].dataKey)
    case None =>
    case Some(v) =>
      var w := Write(cell, Number(v));
      LastWriteAppend([w], rest, cell);
      SingleWrite(w, cell);
  }

  /** A later entry's cell is not written by entry `k`. */
  lemma EarlierEntrySkipped(column: nat, data: seq<Metrics.Entry>, k: nat, target: nat)
    requires k < target < |RowMap|
    requires DataWritesFrom(column, data, k) ==
             match Metrics.Lookup(data, RowMap[k].dataKey)
             case None => DataWritesFrom(column, data, k + 1)
             case Some(v) => [Write(Cell(FirstDataRow + k, column), Number(v))] + DataWritesFrom(column, data, k + 1)
    ensures LastWriteTo(DataWritesFrom(column, data, k), Cell(FirstDataRow + target, column)) ==
            LastWriteTo(DataWritesFrom(column, data, k + 1), Cell(FirstDataRow + target, column))
  {
    var cell := Cell(FirstDataRow + target, column);
    var rest := DataWritesFrom(column, data, k + 1);
    match Metrics.Lookup(data, RowMap[k].dataKey)
    case None =>
    case Some(v) =>
      var w := Write(Cell(FirstDataRow + k, column), Number(v));
      LastWriteAppend([w], rest, cell);
      SingleWrite(w, cell);
  }

  lemma RowsBelowUntouched(writes: seq<Write>, cell: Cell)
    requires forall j :: 0 <= j < |writes| ==> writes[j].cell.row > cell.row
    ensures LastWriteTo(writes, cell).None?
  {
    Untouched(writes, cell);
  }

  lemma SingleWrite(w: Write, cell: Cell)
    ensures LastWriteTo([w], cell) == if w.cell == cell then Some(w.value) else None
  {
    assert [w][..0] == [];
  }

  /** Entry `k` contributes at most one write, to row `3 + k`. */
  lemma DataWritesStep(column: nat, data: seq<Metrics.Entry>, k: nat)
    requires k < |RowMap|
    ensures DataWritesFrom(column, data, k) ==
            match Metrics.Lookup(data, RowMap[k].dataKey)
            case None => DataWritesFrom(column, data, k + 1)
            case Some(v) => [Write(Cell(FirstDataRow + k, column), Number(v))] + DataWritesFrom(column, data, k + 1)
  {
    DataRowOfLink(k);
  }

  /** The corrected header name: looked up with the upper-cased code, as the SMS
      line does. */
  function HeaderName(code: string): string
  {
    CompanyNames.GetName(Text.Upper(code))
  }

  /** The header name as written: the raw code is looked up, so an unknown code
      heads its column unchanged, and the written name agrees with the corrected
      one whenever the code is already upper case. */
  function HeaderNameAsWritten(code: string): (name: string)
    ensures code !in CompanyNames.Members ==> name == code
    ensures Text.Upper(code) == code ==> name == HeaderName(code)
  {
    CompanyNames.GetName(code)
  }

  /** With a lower-case code the header as written shows the code itself, while the
      SMS line and the corrected header show the display name. */
  lemma HeaderNameDiscrepancy()
    ensures HeaderNameAsWritten("ds_sjs") == "ds_sjs"
    ensures HeaderName("ds_sjs") == "石景山"
  {
    CompanyNames.GetNameCaseSensitive();
  }

  /** The name heading a branch office's column: as written, the raw code is
      looked up; corrected, the upper-cased one. */
  function ColumnHeader(edition: Edition, code: string): string {
    match edition
    case AsWritten => HeaderNameAsWritten(code)
    case Corrected => HeaderName(code)
  }

  /** The writes for branch office `i`: its name in row 2, then its counters. */
  function CompanyWrites(edition: Edition, i: nat, company: Metrics.CompanyData): (writes: seq<Write>)
    ensures InBand(writes, StartColumn + i, HeaderRow, FirstDataRow + |RowMap|)
  {
    var header := Write(Cell(HeaderRow, StartColumn + i), TextValue(ColumnHeader(edition, company.company)));
    var data := DataWritesFrom(StartColumn + i, company.data, 0);
    InBandPrepend(header, data, StartColumn + i, HeaderRow, FirstDataRow + |RowMap|);
    [header] + data
  }

  /** All writes of the report, branch office by branch office. */
  function ReportWrites(edition: Edition, companies: seq<Metrics.CompanyData>): (writes: seq<Write>)
    ensures forall j :: 0 <= j < |writes| ==> StartColumn <= writes[j].cell.column < StartColumn + |companies|
    ensures forall j :: 0 <= j < |writes| ==> HeaderRow <= writes[j].cell.row < FirstDataRow + |RowMap|
    decreases |companies|
  {
    if |companies| == 0 then []
    else
      var n := |companies| - 1;
      ReportWrites(edition, companies[..n]) + CompanyWrites(edition, n, companies[n])
  }

  /** A cell of column `2 + i` is decided by the writes of branch office `i` alone. */
  lemma {:induction false} ReportColumn(edition: Edition, companies: seq<Metrics.CompanyData>, i: nat, row: nat)
    requires i < |companies|
    ensures LastWriteTo(ReportWrites(edition, companies), Cell(row, StartColumn + i)) ==
            LastWriteTo(CompanyWrites(edition, i, companies[i]), Cell(row, StartColumn + i))
    decreases |companies|
  {
    var n := |companies| - 1;
    var init := companies[..n];
    var cell := Cell(row, StartColumn + i);
    var earlier := ReportWrites(edition, init);
    var latest := CompanyWrites(edition, n, companies[n]);
    ReportWritesLast(edition, companies);
    if i < n {
      OtherColumnAfter(earlier, latest, cell);
      assert init[i] == companies[i];
      ReportColumn(edition, init, i, row);
    } else {
      OtherColumnBefore(earlier, latest, cell);
    }
  }

  /** The report's writes end with those of the last branch office. */
  lemma ReportWritesLast(edition: Edition, companies: seq<Metrics.CompanyData>)
    requires |companies| > 0
    ensures var n := |companies| - 1;
            ReportWrites(edition, companies) == ReportWrites(edition, companies[..n]) + CompanyWrites(edition, n, companies[n])
  {
  }

  /** Writes to other columns after the last write to a cell do not change it. */
  lemma OtherColumnAfter(earlier: seq<Write>, later: seq<Write>, cell: Cell)
    requires forall j :: 0 <= j < |later| ==> later[j].cell.column != cell.column
    ensures LastWriteTo(earlier + later, cell) == LastWriteTo(earlier, cell)
  {
    Untouched(later, cell);
    LastWriteAppend(earlier, later, cell);
  }

  /** Writes to other columns before the writes to a cell do not matter either. */
  lemma OtherColumnBefore(earlier: seq<Write>, later: seq<Write>, cell: Cell)
    requires forall j :: 0 <= j < |earlier| ==> earlier[j].cell.column != cell.column
    ensures LastWriteTo(earlier + later, cell) == LastWriteTo(later, cell)
  {
    Untouched(earlier, cell);
    LastWriteAppend(earlier, later, cell);
  }

  /** The filled report: branch office `i` has each counter it delivered in row
      `3 + k` of column `2 + i`; a counter it lacks leaves the cell as the
      template had it. */
  lemma ReportCells(edition: Edition, template: Sheet, companies: seq<Metrics.CompanyData>, i: nat, k: nat)
    requires i < |companies| && k < |RowMap|
    ensures var sheet := Apply(template, ReportWrites(edition, companies));
            var cell := Cell(FirstDataRow + k, StartColumn + i);
            match Metrics.Lookup(companies[i].data, RowMap[k].dataKey)
            case Some(v) => cell in sheet && sheet[cell] == Number(v)
            case None => (cell in sheet <==> cell in template) && (cell in template ==> sheet[cell] == template[cell])
  {
    var cell := Cell(FirstDataRow + k, StartColumn + i);
    ReportColumn(edition, companies, i, FirstDataRow + k);
    CompanyCounterCell(edition, i, companies[i], k);
    ApplyIsLastWrite(template, ReportWrites(edition, companies), cell);
  }

  /** Within its own writes, a branch office's counter cell is written last with
      the counter, or not at all. */
  lemma CompanyCounterCell(edition: Edition, i: nat, company: Metrics.CompanyData, k: nat)
    requires k < |RowMap|
    ensures LastWriteTo(CompanyWrites(edition, i, company), Cell(FirstDataRow + k, StartColumn + i)) ==
            match Metrics.Lookup(company.data, RowMap[k].dataKey)
            case Some(v) => Some(Number(v))
            case None => None
  {
    var column := StartColumn + i;
    var cell := Cell(FirstDataRow + k, column);
    var first := [Write(Cell(HeaderRow, column), TextValue(ColumnHeader(edition, company.company)))];
    var data := DataWritesFrom(column, company.data, 0);
    assert CompanyWrites(edition, i, company) == first + data;
    LastWriteAppend(first, data, cell);
    DataWritesCell(column, company.data, 0, k);
  }

  /** Cells outside the company columns and the header and counter rows keep what
      the template holds. */
  lemma ReportLeavesOtherCells(edition: Edition, template: Sheet, companies: seq<Metrics.CompanyData>, cell: Cell)
    requires cell.column < StartColumn || cell.column >= StartColumn + |companies| ||
             cell.row < HeaderRow || cell.row >= FirstDataRow + |RowMap|
    ensures var sheet := Apply(template, ReportWrites(edition, companies));
            (cell in sheet <==> cell in template) && (cell in template ==> sheet[cell] == template[cell])
  {
    Untouched(ReportWrites(edition, companies), cell);
    ApplyIsLastWrite(template, ReportWrites(edition, companies), cell);
  }

  const Title: string := "远传出账明细"
  const CategoryLabel: string := "类目"

  /** The row names written down column 1 starting at `firstRow`. */
  function LabelWrites(firstRow: nat): (writes: seq<Write>)
    ensures |writes| == |RowMap|
    ensures forall k :: 0 <= k < |RowMap| ==> writes[k] == Write(Cell(firstRow + k, 1), TextValue(RowMap[k].rowName))
  {
    seq(|RowMap|, k requires 0 <= k < |RowMap| => Write(Cell(firstRow + k, 1), TextValue(RowMap[k].rowName)))
  }

  lemma LabelWritesCell(firstRow: nat, row: nat)
    ensures LastWriteTo(LabelWrites(firstRow), Cell(row, 1)) ==
            if firstRow <= row < firstRow + |RowMap| then Some(TextValue(RowMap[row - firstRow].rowName)) else None
  {
    var writes := LabelWrites(firstRow);
    var r := LastWriteTo(writes, Cell(row, 1));
    LastWriteToMeaning(writes, Cell(row, 1));
    if firstRow <= row < firstRow + |RowMap| {
      assert writes[row - firstRow].cell == Cell(row, 1);
      var j :| 0 <= j < |writes| && writes[j] == Write(Cell(row, 1), r.value) &&
               forall l :: j < l < |writes| ==> writes[l].cell != Cell(row, 1);
    }
  }

  /** The workbook `build_excel` synthesizes when the template file is missing, as
      written: title, category label, the row names from row 3, then the row names
      again from row 2. The title survives, but the second pass puts the first row
      name where the category label was. */
  function SynthesizedAsWritten(): (sheet: Sheet)
    ensures Cell(1, 1) in sheet && sheet[Cell(1, 1)] == TextValue(Title)
    ensures Cell(HeaderRow, 1) in sheet && sheet[Cell(HeaderRow, 1)] == TextValue(RowMap[0].rowName)
  {
    var head := [Write(Cell(1, 1), TextValue(Title)), Write(Cell(2, 1), TextValue(CategoryLabel))];
    var first := head + LabelWrites(FirstDataRow);
    var writes := first + LabelWrites(HeaderRow);
    LabelWritesCell(HeaderRow, HeaderRow);
    LabelWritesCell(HeaderRow, 1);
    LabelWritesCell(FirstDataRow, 1);
    LastWriteAppend(head, LabelWrites(FirstDataRow), Cell(1, 1));
    LastWriteAppend(first, LabelWrites(HeaderRow), Cell(1, 1));
    LastWriteAppend(first, LabelWrites(HeaderRow), Cell(HeaderRow, 1));
    ApplyIsLastWrite(map[], writes, Cell(1, 1));
    ApplyIsLastWrite(map[], writes, Cell(HeaderRow, 1));
    Apply(map[], writes)
  }

  /** The synthesized workbook as evidently intended: each row name beside the row
      its counter is written to. */
  function SynthesizedIntended(): Sheet {
    Apply(map[], [Write(Cell(1, 1), TextValue(Title)), Write(Cell(2, 1), TextValue(CategoryLabel))]
                 + LabelWrites(FirstDataRow))
  }

  /** As written, the row name beside the counter of entry `k` is that of entry
      `k + 1`. */
  lemma SynthesizedAsWrittenMislabels(k: nat)
    requires k + 1 < |RowMap|
    ensures Cell(FirstDataRow + k, 1) in SynthesizedAsWritten()
    ensures SynthesizedAsWritten()[Cell(FirstDataRow + k, 1)] == TextValue(RowMap[k + 1].rowName)
    ensures RowMap[k + 1].rowName != RowMap[k].rowName
  {
    var head := [Write(Cell(1, 1), TextValue(Title)), Write(Cell(2, 1), TextValue(CategoryLabel))];
    var writes := head + LabelWrites(FirstDataRow) + LabelWrites(HeaderRow);
    RowMapDistinct();
    LabelWritesCell(HeaderRow, FirstDataRow + k);
    LastWriteAppend(head + LabelWrites(FirstDataRow), LabelWrites(HeaderRow), Cell(FirstDataRow + k, 1));
    ApplyIsLastWrite(map[], writes, Cell(FirstDataRow + k, 1));
  }

  /** Corrected, every counter row carries its own row name. */
  lemma SynthesizedIntendedLabels(k: nat)
    requires k < |RowMap|
    ensures Cell(FirstDataRow + k, 1) in SynthesizedIntended()
    ensures SynthesizedIntended()[Cell(FirstDataRow + k, 1)] == TextValue(RowMap[k].rowName)
  {
    var head := [Write(Cell(1, 1), TextValue(Title)), Write(Cell(2, 1), TextValue(CategoryLabel))];
    var labels := LabelWrites(FirstDataRow);
    var cell := Cell(FirstDataRow + k, 1);
    LabelWritesCell(FirstDataRow, FirstDataRow + k);
    LastWriteAppend(head, labels, cell);
    ApplyIsLastWrite(map[], head + labels, cell);
  }

  /** Corrected, rows 1 and 2 keep the title and the category label. */
  lemma SynthesizedIntendedHeading()
    ensures Cell(HeaderRow, 1) in SynthesizedIntended() && Cell(1, 1) in SynthesizedIntended()
    ensures SynthesizedIntended()[Cell(HeaderRow, 1)] == TextValue(CategoryLabel)
    ensures SynthesizedIntended()[Cell(1, 1)] == TextValue(Title)
  {
    var head := [Write(Cell(1, 1), TextValue(Title)), Write(Cell(2, 1), TextValue(CategoryLabel))];
    var labels := LabelWrites(FirstDataRow);
    LabelWritesCell(FirstDataRow, HeaderRow);
    LabelWritesCell(FirstDataRow, 1);
    LastWriteAppend(head, labels, Cell(HeaderRow, 1));
    LastWriteAppend(head, labels, Cell(1, 1));
    ApplyIsLastWrite(map[], head + labels, Cell(HeaderRow, 1));
    ApplyIsLastWrite(map[], head + labels, Cell(1, 1));
  }

  /** Branch office `i`'s column header heads column `2 + i`. */
  lemma ReportHeader(edition: Edition, template: Sheet, companies: seq<Metrics.CompanyData>, i: nat)
    requires i < |companies|
    ensures var sheet := Apply(template, ReportWrites(edition, companies));
            Cell(HeaderRow, StartColumn + i) in sheet &&
            sheet[Cell(HeaderRow, StartColumn + i)] == TextValue(ColumnHeader(edition, companies[i].company))
  {
    var column := StartColumn + i;
    var header := Cell(HeaderRow, column);
    var first := [Write(header, TextValue(ColumnHeader(edition, companies[i].company)))];
    var data := DataWritesFrom(column, companies[i].data, 0);
    Untouched(data, header);
    ReportColumn(edition, companies, i, HeaderRow);
    LastWriteAppend(first, data, header);
    ApplyIsLastWrite(template, ReportWrites(edition, companies), header);
  }

  /** Column `2 + i` of the sheet is headed by the name. */
  predicate HeadedBy(sheet: Sheet, i: nat, name: string) {
    Cell(HeaderRow, StartColumn + i) in sheet && sheet[Cell(HeaderRow, StartColumn + i)] == TextValue(name)
  }

  /** Every branch office's column header heads its column. */
  lemma ReportHeaders(edition: Edition, template: Sheet, companies: seq<Metrics.CompanyData>, sheet: Sheet)
    requires sheet == Apply(template, ReportWrites(edition, companies))
    ensures forall i :: 0 <= i < |companies| ==> HeadedBy(sheet, i, ColumnHeader(edition, companies[i].company))
  {
    forall i | 0 <= i < |companies| ensures HeadedBy(sheet, i, ColumnHeader(edition, companies[i].company)) {
      ReportHeader(edition, template, companies, i);
    }
  }

  /** The template file: missing (a workbook is synthesized), loaded, or failing
      to load. */
  datatype TemplateFile = Missing | Loaded(sheet: Sheet) | Unreadable

  /** The exceptions `build_excel` catches and turns into `False`. */
  datatype ExcelError = LoadFailed | SaveFailed

  /** The workbook synthesized when the template file is missing. */
  function Synthesized(edition: Edition): Sheet {
    match edition
    case AsWritten => SynthesizedAsWritten()
    case Corrected => SynthesizedIntended()
  }

  /** The sheet the report is written into. */
  function StartSheet(edition: Edition, template: TemplateFile): Sheet
    requires !template.Unreadable?
  {
    if template.Missing? then Synthesized(edition) else template.sheet
  }

  /** `build_excel` (in the `AsWritten` edition): load or synthesize the template,
      fill it, save it. The call reports success exactly when the template could
      be read and the save succeeded; the saved workbook carries each office's
      column header and counters in its column. */
  function BuildExcel(edition: Edition, template: TemplateFile, companies: seq<Metrics.CompanyData>, saveSucceeds: bool): (r: Result<Sheet, ExcelError>)
    ensures r.Success? <==> !template.Unreadable? && saveSucceeds
    ensures r.Success? ==> forall i :: 0 <= i < |companies| ==> HeadedBy(r.value, i, ColumnHeader(edition, companies[i].company))
  {
    if template.Unreadable? then Failure(LoadFailed)
    else
      var sheet := Apply(StartSheet(edition, template), ReportWrites(edition, companies));
      ReportHeaders(edition, StartSheet(edition, template), companies, sheet);
      if saveSucceeds then Success(sheet) else Failure(SaveFailed)
  }
}
