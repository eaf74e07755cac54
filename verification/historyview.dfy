/**
 * The history page: the table rows `renderStory` builds, the comparator and
 * sort behind `sortHistory`, the per-header direction toggling of
 * `attachStoryHandlers`, and the row and bulk delete clicks.
 */
module HistoryView {
  import opened Common
  import opened Records
  import Strings
  import Server
  import Table

  /** A `<tr>`: its `data-id`, its `data-date` text and the text of its cells. */
  datatype DomRow = DomRow(id: int, date: string, cells: seq<string>)

  /**
   * The row `renderStory` builds for a record: user, title, score, the
   * locale-formatted date (`locale` stands for `toLocaleString`) and the
   * delete cell.
   */
  function RenderRow(h: Row<HistoryRecord>, locale: int -> string): (r: DomRow)
    ensures Shaped(r)
  {
    DomRow(h.id, Strings.ShowInt(h.val.date),
           [h.val.user, h.val.testTitle, Strings.ShowInt(h.val.score), locale(h.val.date), "Delete"])
  }

  /** Every rendered row has five cells. */
  predicate Shaped(r: DomRow)
  {
    |r.cells| == 5
  }

  predicate AllShaped(rows: seq<DomRow>)
  {
    forall i :: 0 <= i < |rows| ==> Shaped(rows[i])
  }

  /** The sortable headers, by their `data-col` attribute. */
  datatype Column = User | TestTitle | Score | Date

  function ColumnName(c: Column): string
  {
    match c
    case User => "user"
    case TestTitle => "testTitle"
    case Score => "score"
    case Date => "date"
  }

  /** `getColIdx`: the 1-based cell position of a column name; undefined for other names. */
  function ColIdx(name: string): (r: Option<int>)
    ensures r.Some? <==> exists c: Column :: ColumnName(c) == name
    ensures r.Some? ==> 1 <= r.value <= 4
  {
    if name == "user" then assert ColumnName(User) == name; Some(1)
    else if name == "testTitle" then assert ColumnName(TestTitle) == name; Some(2)
    else if name == "score" then assert ColumnName(Score) == name; Some(3)
    else if name == "date" then assert ColumnName(Date) == name; Some(4)
    else
      assert forall c: Column :: ColumnName(c) != name;
      None
  }

  /** The cell `getColIdx` points at holds the field the column is named after. */
  lemma ColIdxPicksField(h: Row<HistoryRecord>, locale: int -> string)
    ensures var cells := RenderRow(h, locale).cells;
            && cells[ColIdx(ColumnName(User)).value - 1] == h.val.user
            && cells[ColIdx(ColumnName(TestTitle)).value - 1] == h.val.testTitle
            && cells[ColIdx(ColumnName(Score)).value - 1] == Strings.ShowInt(h.val.score)
            && cells[ColIdx(ColumnName(Date)).value - 1] == locale(h.val.date)
  {
  }

  /** A sort key: a number (`+text`) or a string. */
  datatype SortKey = Num(n: int) | Str(s: string)

  /**
   * JavaScript `<` on keys. One column always yields one kind of key, so the
   * mixed case never arises; it is fixed so that the order is total.
   */
  predicate KeyLess(a: SortKey, b: SortKey)
  {
    match (a, b)
    case (Num(x), Num(y)) => x < y
    case (Str(x), Str(y)) => Strings.LexLess(x, y)
    case (Num(_), Str(_)) => true
    case (Str(_), Num(_)) => false
  }

  lemma KeyLessStrict(a: SortKey, b: SortKey, c: SortKey)
    ensures !KeyLess(a, a)
    ensures KeyLess(a, b) ==> !KeyLess(b, a)
    ensures a != b ==> KeyLess(a, b) || KeyLess(b, a)
    ensures KeyLess(a, b) && KeyLess(b, c) ==> KeyLess(a, c)
  {
    if a.Str? {
      Strings.LexLessIrreflexive(a.s);
      if b.Str? {
        Strings.LexLessAsymmetric(a.s, b.s);
        Strings.LexLessTotal(a.s, b.s);
        if c.Str? {
          Strings.LexLessTransitive(a.s, b.s, c.s);
        }
      }
    }
  }

  /** The value `sortHistory` compares for a row: timestamp and score as numbers, names as strings. */
  function Key(r: DomRow, c: Column): SortKey
    requires Shaped(r)
  {
    if c == Date then Num(Strings.ToNumber(r.date))
    else if c == Score then Num(Strings.ToNumber(r.cells[ColIdx(ColumnName(c)).value - 1]))
    else Str(r.cells[ColIdx(ColumnName(c)).value - 1])
  }

  /** On a rendered row the keys are the record's date, score, user and title. */
  lemma KeyOfRendered(h: Row<HistoryRecord>, locale: int -> string)
    ensures Key(RenderRow(h, locale), Date) == Num(h.val.date)
    ensures Key(RenderRow(h, locale), Score) == Num(h.val.score)
    ensures Key(RenderRow(h, locale), User) == Str(h.val.user)
    ensures Key(RenderRow(h, locale), TestTitle) == Str(h.val.testTitle)
  {
    var r := RenderRow(h, locale);
    KeyCells(r);
    assert r.date == Strings.ShowInt(h.val.date);
    Strings.ToNumberShowInt(h.val.date);
    assert r.cells[2] == Strings.ShowInt(h.val.score);
    Strings.ToNumberShowInt(h.val.score);
  }

  /** Which cell each column's key is read from. */
  lemma KeyCells(r: DomRow)
    requires Shaped(r)
    ensures Key(r, User) == Str(r.cells[0])
    ensures Key(r, TestTitle) == Str(r.cells[1])
    ensures Key(r, Score) == Num(Strings.ToNumber(r.cells[2]))
    ensures Key(r, Date) == Num(Strings.ToNumber(r.date))
  {
    assert ColIdx(ColumnName(User)) == Some(1);
    assert ColIdx(ColumnName(TestTitle)) == Some(2);
    assert ColIdx(ColumnName(Score)) == Some(3);
  }

  /** A header's sort direction: 1 ascending, -1 descending. */
  type Dir = d: int | d == 1 || d == -1 witness 1

  /** `-dir`. */
  function Flip(d: Dir): (r: Dir)
    ensures r as int == -(d as int)
  {
    if d == 1 then -1 else 1
  }

  /**
   * The comparator passed to `rows.sort`: 0 exactly on equal keys, negative
   * exactly when `a` belongs first in direction `dir`.
   */
  function Compare(c: Column, dir: Dir, a: DomRow, b: DomRow): (r: int)
    requires Shaped(a) && Shaped(b)
    ensures r == 0 <==> Key(a, c) == Key(b, c)
    ensures r < 0 <==> if dir == 1 then KeyLess(Key(a, c), Key(b, c)) else KeyLess(Key(b, c), Key(a, c))
    ensures -1 <= r <= 1
  {
    var ka := Key(a, c);
    var kb := Key(b, c);
    KeyLessStrict(ka, kb, ka);
    if ka == kb then 0 else if KeyLess(ka, kb) then -(dir as int) else dir as int
  }

  /** `a` may stand before `b`. */
  predicate Before(c: Column, dir: Dir, a: DomRow, b: DomRow)
    requires Shaped(a) && Shaped(b)
  {
    Compare(c, dir, a, b) <= 0
  }

  lemma BeforeTotal(c: Column, dir: Dir, a: DomRow, b: DomRow)
    requires Shaped(a) && Shaped(b)
    ensures Before(c, dir, a, b) || Before(c, dir, b, a)
  {
    KeyLessStrict(Key(a, c), Key(b, c), Key(a, c));
  }

  lemma BeforeTransitive(c: Column, dir: Dir, a: DomRow, b: DomRow, d: DomRow)
    requires Shaped(a) && Shaped(b) && Shaped(d)
    requires Before(c, dir, a, b) && Before(c, dir, b, d)
    ensures Before(c, dir, a, d)
  {
    KeyLessStrict(Key(a, c), Key(b, c), Key(d, c));
    KeyLessStrict(Key(d, c), Key(b, c), Key(a, c));
    KeyLessStrict(Key(a, c), Key(d, c), Key(b, c));
  }

  predicate Ordered(c: Column, dir: Dir, rows: seq<DomRow>)
    requires AllShaped(rows)
  {
    forall i, j :: 0 <= i < j < |rows| ==> Before(c, dir, rows[i], rows[j])
  }

  /** Places `x` before the first row it may precede. */
  function InsertRow(c: Column, dir: Dir, x: DomRow, rows: seq<DomRow>): (r: seq<DomRow>)
    requires Shaped(x) && AllShaped(rows)
    ensures multiset(r) == multiset(rows) + multiset{x}
    ensures AllShaped(r)
  {
    if |rows| == 0 then [x]
    else if Before(c, dir, x, rows[0]) then [x] + rows
    else
      var tail := InsertRow(c, dir, x, rows[1..]);
      ConsInserted(rows, tail, x);
      [rows[0]] + tail
  }

  /** Putting back the first row in front of the tail with `x` inserted. */
  lemma ConsInserted(rows: seq<DomRow>, tail: seq<DomRow>, x: DomRow)
    requires |rows| > 0 && AllShaped(rows) && AllShaped(tail)
    requires multiset(tail) == multiset(rows[1..]) + multiset{x}
    ensures AllShaped([rows[0]] + tail)
    ensures multiset([rows[0]] + tail) == multiset(rows) + multiset{x}
  {
    assert rows == [rows[0]] + rows[1..];
    var r := [rows[0]] + tail;
    assert forall i :: 1 <= i < |r| ==> r[i] == tail[i - 1];
  }

  /** A row that may precede every row of an ordered list may be put in front of it. */
  lemma OrderedCons(c: Column, dir: Dir, x: DomRow, rows: seq<DomRow>)
    requires Shaped(x) && AllShaped(rows) && Ordered(c, dir, rows)
    requires forall k :: 0 <= k < |rows| ==> Before(c, dir, x, rows[k])
    ensures AllShaped([x] + rows) && Ordered(c, dir, [x] + rows)
  {
    var r := [x] + rows;
    assert forall k :: 1 <= k < |r| ==> r[k] == rows[k - 1];
  }

  lemma {:induction false} InsertOrdered(c: Column, dir: Dir, x: DomRow, rows: seq<DomRow>)
    requires Shaped(x) && AllShaped(rows) && Ordered(c, dir, rows)
    ensures Ordered(c, dir, InsertRow(c, dir, x, rows))
  {
    if |rows| == 0 {
    } else if Before(c, dir, x, rows[0]) {
      forall k | 0 <= k < |rows| ensures Before(c, dir, x, rows[k]) {
        if k > 0 {
          BeforeTransitive(c, dir, x, rows[0], rows[k]);
        }
      }
      OrderedCons(c, dir, x, rows);
    } else {
      BeforeTotal(c, dir, x, rows[0]);
      var tail := InsertRow(c, dir, x, rows[1..]);
      InsertOrdered(c, dir, x, rows[1..]);
      forall k | 0 <= k < |tail| ensures Before(c, dir, rows[0], tail[k]) {
        FirstBeforeInserted(c, dir, x, rows, tail, k);
      }
      OrderedCons(c, dir, rows[0], tail);
    }
  }

  lemma FirstBeforeInserted(c: Column, dir: Dir, x: DomRow, rows: seq<DomRow>, tail: seq<DomRow>, k: int)
    requires Shaped(x) && AllShaped(rows) && Ordered(c, dir, rows) && |rows| > 0
    requires Before(c, dir, rows[0], x)
    requires tail == InsertRow(c, dir, x, rows[1..]) && 0 <= k < |tail|
    ensures Before(c, dir, rows[0], tail[k])
  {
    assert tail[k] in multiset(tail);
    if tail[k] != x {
      assert tail[k] in multiset(rows[1..]);
      var m :| 0 <= m < |rows| - 1 && rows[1..][m] == tail[k];
      assert rows[m + 1] == tail[k];
    }
  }

  /** In an ordered list keys ascend for direction 1 and descend for -1. */
  lemma OrderedKeys(c: Column, dir: Dir, r: seq<DomRow>)
    requires AllShaped(r) && Ordered(c, dir, r)
    ensures dir == 1 ==> forall i, j :: 0 <= i < j < |r| ==> !KeyLess(Key(r[j], c), Key(r[i], c))
    ensures dir == -1 ==> forall i, j :: 0 <= i < j < |r| ==> !KeyLess(Key(r[i], c), Key(r[j], c))
  {
    forall i, j | 0 <= i < j < |r|
      ensures dir == 1 ==> !KeyLess(Key(r[j], c), Key(r[i], c))
      ensures dir == -1 ==> !KeyLess(Key(r[i], c), Key(r[j], c))
    {
      assert Before(c, dir, r[i], r[j]);
      KeyLessStrict(Key(r[i], c), Key(r[j], c), Key(r[i], c));
    }
  }

  /**
   * `sortHistory(col, dir)`: the same rows, reordered so that with dir 1 the
   * column's keys never decrease and with dir -1 they never increase.
   */
  function SortRows(c: Column, dir: Dir, rows: seq<DomRow>): (r: seq<DomRow>)
    requires AllShaped(rows)
    ensures multiset(r) == multiset(rows)
    ensures AllShaped(r) && Ordered(c, dir, r)
    ensures dir == 1 ==> forall i, j :: 0 <= i < j < |r| ==> !KeyLess(Key(r[j], c), Key(r[i], c))
    ensures dir == -1 ==> forall i, j :: 0 <= i < j < |r| ==> !KeyLess(Key(r[i], c), Key(r[j], c))
  {
    if |rows| == 0 then []
    else
      var rest := SortRows(c, dir, rows[1..]);
      assert rows == [rows[0]] + rows[1..];
      InsertOrdered(c, dir, rows[0], rest);
      var r := InsertRow(c, dir, rows[0], rest);
      OrderedKeys(c, dir, r);
      r
  }

  /** The rows whose key in column `c` is `k`, in their order. */
  function WithKey(c: Column, k: SortKey, rows: seq<DomRow>): seq<DomRow>
    requires AllShaped(rows)
  {
    if |rows| == 0 then []
    else (if Key(rows[0], c) == k then [rows[0]] else []) + WithKey(c, k, rows[1..])
  }

  /** `WithKey` of a row put in front of a list. */
  lemma WithKeyCons(c: Column, k: SortKey, x: DomRow, rows: seq<DomRow>)
    requires Shaped(x) && AllShaped(rows)
    ensures AllShaped([x] + rows)
    ensures WithKey(c, k, [x] + rows) == (if Key(x, c) == k then [x] else []) + WithKey(c, k, rows)
  {
    assert ([x] + rows)[1..] == rows;
  }

  /**
   * Inserting `x` keeps the relative order of every key's rows and puts `x`
   * before the rows that share its key.
   */
  lemma {:induction false} InsertStable(c: Column, dir: Dir, x: DomRow, rows: seq<DomRow>, k: SortKey)
    requires Shaped(x) && AllShaped(rows)
    ensures WithKey(c, k, InsertRow(c, dir, x, rows))
            == (if Key(x, c) == k then [x] else []) + WithKey(c, k, rows)
  {
    if |rows| == 0 {
      WithKeyCons(c, k, x, []);
    } else if Before(c, dir, x, rows[0]) {
      WithKeyCons(c, k, x, rows);
    } else {
      var tail := InsertRow(c, dir, x, rows[1..]);
      InsertStable(c, dir, x, rows[1..], k);
      assert rows == [rows[0]] + rows[1..];
      PassOver(c, k, x, rows[0], rows[1..], tail);
    }
  }

  /** `x` passing over a row with a different key. */
  lemma PassOver(c: Column, k: SortKey, x: DomRow, y: DomRow, rows: seq<DomRow>, tail: seq<DomRow>)
    requires Shaped(x) && Shaped(y) && AllShaped(rows) && AllShaped(tail)
    requires Key(x, c) != Key(y, c)
    requires WithKey(c, k, tail) == (if Key(x, c) == k then [x] else []) + WithKey(c, k, rows)
    ensures WithKey(c, k, [y] + tail) == (if Key(x, c) == k then [x] else []) + WithKey(c, k, [y] + rows)
  {
    WithKeyCons(c, k, y, tail);
    WithKeyCons(c, k, y, rows);
  }

  /**
   * The sort is stable: rows with equal keys keep the order they had, as
   * `Array.prototype.sort` must since ECMAScript 2019. With the ordering in
   * `SortRows`' contract this fixes the result.
   */
  lemma {:induction false} SortStable(c: Column, dir: Dir, rows: seq<DomRow>, k: SortKey)
    requires AllShaped(rows)
    ensures WithKey(c, k, SortRows(c, dir, rows)) == WithKey(c, k, rows)
  {
    if |rows| > 0 {
      var rest := SortRows(c, dir, rows[1..]);
      SortStable(c, dir, rows[1..], k);
      InsertStable(c, dir, rows[0], rest, k);
    }
  }

  /** The headers' stored directions and the text of their sort indicators. */
  datatype Headers = Headers(dirs: map<Column, Dir>, glyphs: map<Column, string>)

  const AllColumns: set<Column> := {User, TestTitle, Score, Date}

  predicate HeadersOk(h: Headers)
  {
    h.dirs.Keys == AllColumns && h.glyphs.Keys == AllColumns
  }

  lemma EveryColumn(c: Column)
    ensures c in AllColumns
  {
  }

  /** After `attachStoryHandlers`: every header at direction 1, no indicator shown. */
  const InitialHeaders: Headers :=
    Headers(map[User := 1, TestTitle := 1, Score := 1, Date := 1],
            map[User := "", TestTitle := "", Score := "", Date := ""])

  /**
   * The header part of a click on `c`: only `c`'s direction is negated, and
   * only `c` shows an indicator, ▲ when it sorted with 1 and ▼ with -1.
   */
  function Toggle(h: Headers, c: Column): (r: Headers)
    requires HeadersOk(h)
    ensures c in AllColumns && HeadersOk(r)
    ensures r.dirs[c] == Flip(h.dirs[c])
    ensures forall c' :: c' in AllColumns && c' != c ==> r.dirs[c'] == h.dirs[c']
    ensures r.glyphs[c] == if h.dirs[c] == 1 then "▲" else "▼"
    ensures forall c' :: c' in AllColumns && c' != c ==> r.glyphs[c'] == ""
  {
    EveryColumn(c);
    var dir := h.dirs[c];
    var glyphs := map c' | c' in AllColumns :: if c' == c then (if dir == 1 then "▲" else "▼") else "";
    Headers(h.dirs[c := Flip(dir)], glyphs)
  }

  datatype Clicked = Clicked(headers: Headers, rows: seq<DomRow>)

  /** A click on header `c`: sort with `c`'s stored direction, then toggle the headers. */
  function Click(h: Headers, rows: seq<DomRow>, c: Column): (r: Clicked)
    requires HeadersOk(h) && AllShaped(rows)
    ensures c in AllColumns && HeadersOk(r.headers) && AllShaped(r.rows)
    ensures multiset(r.rows) == multiset(rows) && Ordered(c, h.dirs[c], r.rows)
    ensures r.rows == SortRows(c, h.dirs[c], rows)
    ensures r.headers == Toggle(h, c)
  {
    EveryColumn(c);
    Clicked(Toggle(h, c), SortRows(c, h.dirs[c], rows))
  }

  /** Two toggles of the same header give back its stored direction. */
  lemma ToggleTwiceRestores(h: Headers, c: Column)
    requires HeadersOk(h)
    ensures Toggle(Toggle(h, c), c).dirs == h.dirs
  {
    var twice := Toggle(Toggle(h, c), c);
    assert twice.dirs.Keys == h.dirs.Keys;
  }

  /** The headers after `n` consecutive clicks on `c`. */
  function Toggles(h: Headers, c: Column, n: nat): (r: Headers)
    requires HeadersOk(h)
    ensures HeadersOk(r)
  {
    if n == 0 then h else Toggle(Toggles(h, c, n - 1), c)
  }

  predicate Odd(n: nat)
  {
    n > 0 && !Odd(n - 1)
  }

  /** The direction a header stores after n clicks: 1 after an even number, -1 after an odd one. */
  function DirAfter(n: nat): Dir
  {
    if Odd(n) then -1 else 1
  }

  /** n clicks on one header leave its direction flipped exactly when n is odd. */
  lemma {:induction false} TogglesFrom(h: Headers, c: Column, n: nat)
    requires HeadersOk(h)
    ensures c in AllColumns
    ensures Toggles(h, c, n).dirs[c] == if Odd(n) then Flip(h.dirs[c]) else h.dirs[c]
  {
    EveryColumn(c);
    if n > 0 {
      TogglesFrom(h, c, n - 1);
    }
  }

  lemma TogglesDir(c: Column, n: nat)
    ensures c in AllColumns
    ensures Toggles(InitialHeaders, c, n).dirs[c] == DirAfter(n)
  {
    assert HeadersOk(InitialHeaders) && InitialHeaders.dirs[c] == 1;
    TogglesFrom(InitialHeaders, c, n);
  }

  /**
   * From the initial headers, the n-th consecutive click on one header finds
   * 1 stored (it sorts ascending and shows ▲) when n is odd, and -1 (it sorts
   * descending and shows ▼) when n is even.
   */
  lemma {:induction false} ClicksAlternate(c: Column, n: nat)
    requires n >= 1
    ensures c in AllColumns
    ensures Toggles(InitialHeaders, c, n - 1).dirs[c] == if Odd(n) then 1 else -1
    ensures Toggles(InitialHeaders, c, n).glyphs[c] == if Odd(n) then "▲" else "▼"
  {
    assert HeadersOk(InitialHeaders);
    TogglesDir(c, n - 1);
    TogglesGlyph(InitialHeaders, c, n);
    assert Odd(n) == !Odd(n - 1);
  }

  /** The n-th click shows ▲ exactly when the direction it found stored was 1. */
  lemma TogglesGlyph(h: Headers, c: Column, n: nat)
    requires HeadersOk(h) && n >= 1
    ensures c in AllColumns
    ensures Toggles(h, c, n).glyphs[c] == if Toggles(h, c, n - 1).dirs[c] == 1 then "▲" else "▼"
  {
    EveryColumn(c);
  }

  datatype View = View(store: Server.Store, rows: seq<DomRow>)

  /**
   * A click on row `i`'s delete cell: `DELETE /api/history/:id`, then the row
   * leaves the table only when the answer was 200; a 404 (the record was
   * already gone) makes `fetchJSON` throw and leaves the table as it was.
   */
  function ClickDeleteCell(s: Server.Store, rows: seq<DomRow>, i: int): (r: View)
    requires Server.Valid(s) && 0 <= i < |rows|
    ensures Server.Valid(r.store)
    ensures Table.HasId(s.history, rows[i].id) ==>
              && r.rows == rows[..i] + rows[i + 1..]
              && !Table.HasId(r.store.history, rows[i].id)
              && |r.store.history| == |s.history| - 1
              && exists k :: 0 <= k < |s.history| && s.history[k].id == rows[i].id
                   && r.store == s.(history := s.history[..k] + s.history[k + 1..])
    ensures !Table.HasId(s.history, rows[i].id) ==> r == View(s, rows)
  {
    var reply := Server.DeleteHistory(s, rows[i].id);
    if reply.response == Server.Ok then
      var k :| 0 <= k < |s.history| && s.history[k].id == rows[i].id
               && reply.store.history == s.history[..k] + s.history[k + 1..];
      View(reply.store, rows[..i] + rows[i + 1..])
    else View(reply.store, rows)
  }

  /** The delete-all button: the server empties the history and the table body is cleared. */
  function ClickDeleteAll(s: Server.Store, rows: seq<DomRow>): (r: View)
    requires Server.Valid(s)
    ensures Server.Valid(r.store)
    ensures r.rows == [] && r.store.history == []
    ensures r.store == s.(history := [])
  {
    var reply := Server.DeleteAllHistory(s);
    if reply.response == Server.Ok then View(reply.store, []) else View(reply.store, rows)
  }
}
