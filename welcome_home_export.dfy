/** `welcome_home_export/main.py`: fetches every record ID of each export
    table, page by page, and loads the non-empty ID lists into the warehouse.
    A page arrives already parsed: its column names in order and its rows,
    each cell a value or null. */
module WelcomeHomeExport {
  import opened Wrappers
  import opened Text
  import opened Http
  import SnakeCase

  /** A page of the export as `pandas.read_csv` hands it over. */
  datatype Table<V> = Table(columns: seq<string>, rows: seq<seq<Option<V>>>)

  /** A response whose text either parsed into a table or failed to parse. */
  type ExportResponse<V> = Response<Option<Table<V>>>

  // ---------------------------------------------------------------------------
  // One page: the ID column and its values

  /** `f"{to_snake_case(table_name)}.id"`. */
  function ExpectedIdColumn(tableName: string): string {
    SnakeCase.ToSnakeCase(tableName) + ".id"
  }

  /** The position of the first column called `name`. */
  function IndexOf(columns: seq<string>, name: string): (i: nat)
    requires name in columns
    ensures i < |columns| && columns[i] == name
    ensures forall j :: 0 <= j < i ==> columns[j] != name
  {
    if columns[0] == name then 0 else 1 + IndexOf(columns[1..], name)
  }

  /** The column the IDs are read from: the expected one when the page has
      it, the first column otherwise, and none (an `IndexError` on
      `df.columns[0]`) for a page without columns. */
  function IdColumn(tableName: string, columns: seq<string>): (c: Option<nat>)
    ensures c.Some? ==> c.value < |columns|
    ensures ExpectedIdColumn(tableName) in columns ==>
      c.Some? && columns[c.value] == ExpectedIdColumn(tableName)
      && forall j :: 0 <= j < c.value ==> columns[j] != ExpectedIdColumn(tableName)
    ensures ExpectedIdColumn(tableName) !in columns ==> c == (if columns == [] then None else Some(0))
  {
    var expected := ExpectedIdColumn(tableName);
    if expected in columns then Some(IndexOf(columns, expected))
    else if columns == [] then None
    else Some(0)
  }

  /** A cell of a row; pandas fills a short row with nulls. */
  function Cell<V>(row: seq<Option<V>>, c: nat): Option<V> {
    if c < |row| then row[c] else None
  }

  /** `df[column].dropna().tolist()`: the column's non-null values in row order. */
  function NonNullColumn<V>(rows: seq<seq<Option<V>>>, c: nat): seq<V>
    decreases |rows|
  {
    if rows == [] then []
    else
      var init := NonNullColumn(rows[..|rows| - 1], c);
      match Cell(rows[|rows| - 1], c)
      case Some(v) => init + [v]
      case None => init
  }

  /** Every value comes from a row that holds it, and there are at most as
      many values as rows. */
  lemma {:induction false} NonNullColumnSound<V>(rows: seq<seq<Option<V>>>, c: nat)
    ensures |NonNullColumn(rows, c)| <= |rows|
    ensures var ids := NonNullColumn(rows, c);
      forall k :: 0 <= k < |ids| ==> exists i :: 0 <= i < |rows| && Cell(rows[i], c) == Some(ids[k])
    decreases |rows|
  {
    if rows != [] {
      var init := NonNullColumn(rows[..|rows| - 1], c);
      NonNullColumnSound(rows[..|rows| - 1], c);
      forall k | 0 <= k < |init| ensures exists i :: 0 <= i < |rows| && Cell(rows[i], c) == Some(init[k]) {
        var i :| 0 <= i < |rows| - 1 && Cell(rows[..|rows| - 1][i], c) == Some(init[k]);
        assert rows[..|rows| - 1][i] == rows[i];
      }
    }
  }

  /** The values of the rows that have one, in order and with repetitions: the
      rows of two pages give the values of the first page, then those of the second. */
  lemma {:induction false} NonNullColumnConcat<V>(a: seq<seq<Option<V>>>, b: seq<seq<Option<V>>>, c: nat)
    ensures NonNullColumn(a + b, c) == NonNullColumn(a, c) + NonNullColumn(b, c)
    decreases |b|
  {
    if b == [] {
      assert a + b == a;
    } else {
      var b' := b[..|b| - 1];
      assert (a + b)[..|a + b| - 1] == a + b';
      assert (a + b)[|a + b| - 1] == b[|b| - 1];
      NonNullColumnConcat(a, b', c);
    }
  }

  /** Every row with a value in the column contributes that value. */
  lemma {:induction false} NonNullColumnComplete<V>(rows: seq<seq<Option<V>>>, c: nat, i: nat)
    requires i < |rows| && Cell(rows[i], c).Some?
    ensures Cell(rows[i], c).value in NonNullColumn(rows, c)
    decreases |rows|
  {
    if i < |rows| - 1 {
      assert rows[..|rows| - 1][i] == rows[i];
      NonNullColumnComplete(rows[..|rows| - 1], c, i);
    }
  }

  /** The positions of the rows with a value in column `c`, in order. */
  function NonNullRows<V>(rows: seq<seq<Option<V>>>, c: nat): seq<nat>
    decreases |rows|
  {
    if rows == [] then []
    else
      var init := NonNullRows(rows[..|rows| - 1], c);
      if Cell(rows[|rows| - 1], c).Some? then init + [|rows| - 1] else init
  }

  /** The k-th value is the cell of the row at the k-th position of `f`, the
      positions increase, and every row with a value in the column is among
      them: the column's values are exactly its non-null cells, in row order. */
  ghost predicate CellsInRowOrder<V>(rows: seq<seq<Option<V>>>, c: nat, ids: seq<V>, f: seq<nat>) {
    && |f| == |ids|
    && (forall k :: 0 <= k < |f| ==> f[k] < |rows| && Cell(rows[f[k]], c) == Some(ids[k]))
    && (forall k, l :: 0 <= k < l < |f| ==> f[k] < f[l])
    && (forall i :: 0 <= i < |rows| && Cell(rows[i], c).Some? ==> i in f)
  }

  /** `dropna().tolist()` keeps the non-null cells of the column, each once per
      row and in the order of the rows. */
  lemma {:induction false} NonNullColumnRows<V>(rows: seq<seq<Option<V>>>, c: nat)
    ensures CellsInRowOrder(rows, c, NonNullColumn(rows, c), NonNullRows(rows, c))
    decreases |rows|
  {
    if rows != [] {
      var init := rows[..|rows| - 1];
      NonNullColumnRows(init, c);
      RowsSnoc(rows, c, NonNullColumn(init, c), NonNullRows(init, c));
    }
  }

  /** One more row keeps the values in row order. */
  lemma RowsSnoc<V>(rows: seq<seq<Option<V>>>, c: nat, ids: seq<V>, f: seq<nat>)
    requires rows != [] && CellsInRowOrder(rows[..|rows| - 1], c, ids, f)
    ensures var last := Cell(rows[|rows| - 1], c);
      CellsInRowOrder(rows, c, if last.Some? then ids + [last.value] else ids,
                      if last.Some? then f + [|rows| - 1] else f)
  {
    RowsWiden(rows, c, ids, f);
    match Cell(rows[|rows| - 1], c) {
      case Some(v) => RowsSnocSome(rows, c, ids, f, v);
      case None =>
    }
  }

  /** A last row with a value adds that value and its position at the end. */
  lemma RowsSnocSome<V>(rows: seq<seq<Option<V>>>, c: nat, ids: seq<V>, f: seq<nat>, v: V)
    requires rows != [] && Cell(rows[|rows| - 1], c) == Some(v) && |f| == |ids|
    requires forall k :: 0 <= k < |f| ==> f[k] < |rows| - 1 && Cell(rows[f[k]], c) == Some(ids[k])
    requires forall k, l :: 0 <= k < l < |f| ==> f[k] < f[l]
    requires forall i :: 0 <= i < |rows| - 1 && Cell(rows[i], c).Some? ==> i in f
    ensures CellsInRowOrder(rows, c, ids + [v], f + [|rows| - 1])
  {
    var ids', f' := ids + [v], f + [|rows| - 1];
    assert forall k :: 0 <= k < |f| ==> f'[k] == f[k] && ids'[k] == ids[k];
    assert forall i :: 0 <= i < |rows| - 1 && Cell(rows[i], c).Some? ==> i in f';
  }

  /** The positions found in all rows but the last are positions of `rows`. */
  lemma RowsWiden<V>(rows: seq<seq<Option<V>>>, c: nat, ids: seq<V>, f: seq<nat>)
    requires rows != [] && CellsInRowOrder(rows[..|rows| - 1], c, ids, f)
    ensures forall k :: 0 <= k < |f| ==> f[k] < |rows| - 1 && Cell(rows[f[k]], c) == Some(ids[k])
    ensures forall i :: 0 <= i < |rows| - 1 && Cell(rows[i], c).Some? ==> i in f
  {
    var init := rows[..|rows| - 1];
    assert forall i :: 0 <= i < |init| ==> init[i] == rows[i];
  }

  /** Two rows holding the same ID give it twice: duplicates are kept. */
  lemma NonNullColumnKeepsDuplicates<V>(v: V)
    ensures NonNullColumn([[Some(v)], [Some(v)]], 0) == [v, v]
  {
    var row: seq<Option<V>> := [Some(v)];
    assert [row, row] == [row] + [row];
    assert [row][..0] == [];
    assert Cell(row, 0) == Some(v);
    assert NonNullColumn([row], 0) == [v];
    NonNullColumnConcat([row], [row], 0);
  }

  /** The IDs a parsed page yields, or `None` when reading it raises. */
  function PageIds<V>(tableName: string, payload: Option<Table<V>>): (ids: Option<seq<V>>)
    ensures ids.Some? <==> payload.Some? && IdColumn(tableName, payload.value.columns).Some?
    ensures ids.None? <==> payload.None? || payload.value.columns == []
  {
    match payload
    case None => None
    case Some(t) =>
      match IdColumn(tableName, t.columns)
      case None => None
      case Some(c) => Some(NonNullColumn(t.rows, c))
  }

  /** A page with columns yields the non-null cells of its ID column (the
      column `IdColumn` picks), every one of them, in the order of the rows. */
  lemma PageIdsRows<V>(tableName: string, t: Table<V>)
    requires t.columns != []
    ensures PageIds(tableName, Some(t)).Some?
    ensures CellsInRowOrder(t.rows, IdColumn(tableName, t.columns).value,
                            PageIds(tableName, Some(t)).value,
                            NonNullRows(t.rows, IdColumn(tableName, t.columns).value))
  {
    NonNullColumnRows(t.rows, IdColumn(tableName, t.columns).value);
  }

  // ---------------------------------------------------------------------------
  // The cursor: `Link.split(';')[0].strip('<>')`

  predicate IsAngle(c: char) {
    c == '<' || c == '>'
  }

  /** The literal the `Link` header is searched for. */
  const RelNext: string := "rel=\"next\""

  /** The next URL: taken only from a `Link` header that contains the literal
      `rel="next"`, as its first `;`-separated segment with every `<` and `>`
      stripped from both ends. */
  function ExportNextUrl(link: Option<string>): Option<string> {
    if link.Some? && Contains(link.value, RelNext) then
      Some(StripBy(Split(link.value, ';')[0], IsAngle))
    else None
  }

  /** `while url:` goes on with a URL that is neither `None` nor empty. */
  predicate Continues(url: Option<string>) {
    url.Some? && url.value != ""
  }

  /** A header without the literal `rel="next"` ends the pages. */
  lemma ExportNextUrlNeedsRelNext(h: string)
    ensures ExportNextUrl(Some(h)).Some? <==> Contains(h, RelNext)
  {
  }

  /** The URL of the first link is taken, whichever link carries `rel="next"`. */
  lemma ExportNextUrlFirstLink(u: string, rest: string)
    requires ';' !in u && u != [] && !IsAngle(u[0]) && !IsAngle(u[|u| - 1])
    requires Contains(rest, RelNext)
    ensures ExportNextUrl(Some("<" + u + ">;" + rest)) == Some(u)
  {
    var h := "<" + u + ">;" + rest;
    var s := "<" + u + ">";
    assert h == s + [';'] + rest;
    assert ';' !in s by {
      forall i | 0 <= i < |s| ensures s[i] != ';' {
        if 0 < i < |s| - 1 { assert s[i] == u[i - 1]; }
      }
    }
    SplitAtFirst(s, ';', rest);
    ContainsSuffix(s + [';'], rest, RelNext);
    assert StripBy(s, IsAngle) == u by {
      assert s[1..] == u + ">";
      assert TrimLeft(s, IsAngle) == TrimLeft(s[1..], IsAngle);
      assert (u + ">")[0] == u[0];
      assert TrimLeft(u + ">", IsAngle) == u + ">";
      assert (u + ">")[..|u + ">"| - 1] == u;
      assert TrimRight(u + ">", IsAngle) == TrimRight(u, IsAngle);
      assert TrimRight(u, IsAngle) == u;
    }
  }

  /** An occurrence in the tail of a string is an occurrence in the string. */
  lemma ContainsSuffix(a: string, b: string, sub: string)
    requires Contains(b, sub)
    ensures Contains(a + b, sub)
  {
    ContainsSpec(b, sub);
    var i :| 0 <= i <= |b| - |sub| && HasAt(b, i, sub);
    assert (a + b)[|a| + i..|a| + i + |sub|] == b[i..i + |sub|];
    ContainsAt(a + b, sub, |a| + i);
  }

  // ---------------------------------------------------------------------------
  // `fetch_all_ids_from_api`

  /** `API_BASE_URL`. */
  const ApiBaseUrl: string := "https://crm.welcomehomesoftware.com/api/exports/community/all/table"

  /** `f"{API_BASE_URL}/{table_name}?limit={records_per_page}"`. */
  function FirstUrl(tableName: string, recordsPerPage: nat): string {
    ApiBaseUrl + "/" + tableName + "?limit=" + Decimal(recordsPerPage)
  }

  /** A page ends the run with an error: a failed request, an error status,
      an empty or whitespace-only text, or a text that cannot be read into IDs. */
  predicate PageFails<V>(tableName: string, r: ExportResponse<V>) {
    !Succeeded(r) || IsBlank(r.body) || PageIds(tableName, r.payload).None?
  }

  /** `Some(ids ++ rest)` for a list `rest`, `None` for `None`. */
  function Prepend<T>(ids: seq<T>, rest: Option<seq<T>>): (r: Option<seq<T>>)
    ensures r.Some? <==> rest.Some?
    ensures r.Some? ==> r.value == ids + rest.value
  {
    match rest
    case None => None
    case Some(more) => Some(ids + more)
  }

  lemma PrependTwice<T>(a: seq<T>, b: seq<T>, rest: Option<seq<T>>)
    ensures Prepend(a, Prepend(b, rest)) == Prepend(a + b, rest)
  {
    if rest.Some? {
      assert a + (b + rest.value) == (a + b) + rest.value;
    }
  }

  /** The IDs the loop collects from the k-th request on, or `None` once an
      error makes the function give up. */
  function ExportIdsFrom<V>(tableName: string, rs: seq<ExportResponse<V>>, k: nat): Option<seq<V>>
    requires k <= |rs|
    decreases |rs| - k
  {
    if k == |rs| || PageFails(tableName, rs[k]) then None
    else
      var ids := PageIds(tableName, rs[k].payload).value;
      if Continues(ExportNextUrl(rs[k].link)) then Prepend(ids, ExportIdsFrom(tableName, rs, k + 1))
      else Some(ids)
  }

  /** The number of requests the loop makes from the k-th on. */
  function ExportRequestsFrom<V>(tableName: string, rs: seq<ExportResponse<V>>, k: nat): (n: nat)
    requires k <= |rs|
    ensures 1 <= n <= |rs| - k + 1
    decreases |rs| - k
  {
    if k == |rs| || PageFails(tableName, rs[k]) || !Continues(ExportNextUrl(rs[k].link)) then 1
    else 1 + ExportRequestsFrom(tableName, rs, k + 1)
  }

  /** The URL of the i-th request: the first URL, then each announced next URL. */
  function ExportPageUrl<V>(first: string, rs: seq<ExportResponse<V>>, i: nat): string
    requires i <= |rs|
  {
    if i == 0 then first
    else match ExportNextUrl(LinkOf(rs[i - 1]))
      case Some(u) => u
      case None => ""
  }

  /** The URLs of the first `n` requests, in order. */
  function ExportUrls<V>(first: string, rs: seq<ExportResponse<V>>, n: nat): (urls: seq<string>)
    requires n <= |rs| + 1
    ensures |urls| == n
    ensures forall i :: 0 <= i < n ==> urls[i] == ExportPageUrl(first, rs, i)
  {
    if n == 0 then [] else ExportUrls(first, rs, n - 1) + [ExportPageUrl(first, rs, n - 1)]
  }

  /** What `fetch_all_ids_from_api` returns: the IDs, or `[]` after any error. */
  function ExportIds<V>(tableName: string, rs: seq<ExportResponse<V>>): seq<V> {
    match ExportIdsFrom(tableName, rs, 0)
    case Some(ids) => ids
    case None => []
  }

  /** `fetch_all_ids_from_api(table_name, records_per_page)`, the server being
      the script `rs`; also returns the URLs requested in order. */
  method FetchAllIds<V>(tableName: string, recordsPerPage: nat, rs: seq<ExportResponse<V>>)
    returns (allIds: seq<V>, requested: seq<string>)
    ensures allIds == ExportIds(tableName, rs)
    ensures requested == ExportUrls(FirstUrl(tableName, recordsPerPage), rs, ExportRequestsFrom(tableName, rs, 0))
  {
    var first := FirstUrl(tableName, recordsPerPage);
    var url: Option<string> := Some(first);
    var k: nat := 0;
    allIds, requested := [], [];
    ExportStart(tableName, first, rs);
    while Continues(url)
      invariant ExportAt(tableName, first, rs, k, url, allIds, requested)
      decreases |rs| - k
    {
      var response := Fetch(rs, k);
      if !Succeeded(response) || IsBlank(response.body) {
        // `RequestException`, `HTTPError` from `raise_for_status()` included.
        ExportFails(tableName, first, rs, k, url, allIds, requested);
        return [], requested + [url.value];
      }
      var ids := PageIds(tableName, response.payload);
      if ids.None? {
        // `read_csv` raised, or the page has no column to fall back on.
        ExportFails(tableName, first, rs, k, url, allIds, requested);
        return [], requested + [url.value];
      }
      ghost var url0, allIds0, requested0 := url, allIds, requested;
      requested := requested + [url.value];
      allIds := allIds + ids.value;
      url := ExportNextUrl(response.link);
      ExportGoes(tableName, first, rs, k, url0, allIds0, requested0, url, allIds, requested);
      k := k + 1;
    }
  }

  /** The state of the loop of `fetch_all_ids_from_api` before its k-th
      request, or after its last page when `url` no longer continues. */
  ghost predicate ExportAt<V>(tableName: string, first: string, rs: seq<ExportResponse<V>>, k: nat,
                              url: Option<string>, allIds: seq<V>, requested: seq<string>) {
    && k <= |rs|
    && requested == ExportUrls(first, rs, k)
    && (Continues(url) ==>
          && ExportIdsFrom(tableName, rs, 0) == Prepend(allIds, ExportIdsFrom(tableName, rs, k))
          && ExportRequestsFrom(tableName, rs, 0) == k + ExportRequestsFrom(tableName, rs, k)
          && url.value == ExportPageUrl(first, rs, k))
    && (!Continues(url) ==>
          && ExportIdsFrom(tableName, rs, 0) == Some(allIds)
          && ExportRequestsFrom(tableName, rs, 0) == k)
  }

  lemma ExportStart<V>(tableName: string, first: string, rs: seq<ExportResponse<V>>)
    requires Continues(Some(first))
    ensures ExportAt(tableName, first, rs, 0, Some(first), [], [])
  {
    match ExportIdsFrom(tableName, rs, 0) {
      case Some(ids) => assert [] + ids == ids;
      case None =>
    }
  }

  /** A failing page: the whole call yields `[]` after one more request. */
  lemma ExportFails<V>(tableName: string, first: string, rs: seq<ExportResponse<V>>, k: nat,
                       url: Option<string>, allIds: seq<V>, requested: seq<string>)
    requires ExportAt(tableName, first, rs, k, url, allIds, requested) && Continues(url)
    requires PageFails(tableName, Fetch(rs, k))
    ensures ExportIds(tableName, rs) == []
    ensures requested + [url.value] == ExportUrls(first, rs, ExportRequestsFrom(tableName, rs, 0))
  {
  }

  /** A page read without error: its IDs are kept and its next URL followed. */
  lemma ExportGoes<V>(tableName: string, first: string, rs: seq<ExportResponse<V>>, k: nat,
                      url: Option<string>, allIds: seq<V>, requested: seq<string>,
                      url': Option<string>, allIds': seq<V>, requested': seq<string>)
    requires ExportAt(tableName, first, rs, k, url, allIds, requested) && Continues(url)
    requires !PageFails(tableName, Fetch(rs, k))
    requires allIds' == allIds + PageIds(tableName, Fetch(rs, k).payload).value
    requires url' == ExportNextUrl(Fetch(rs, k).link)
    requires requested' == requested + [url.value]
    ensures k < |rs| && ExportAt(tableName, first, rs, k + 1, url', allIds', requested')
  {
    ExportStep(tableName, first, rs, k);
    PrependTwice(allIds, PageIds(tableName, rs[k].payload).value, ExportIdsFrom(tableName, rs, k + 1));
  }

  /** One page of a run that goes on past it. */
  lemma ExportStep<V>(tableName: string, first: string, rs: seq<ExportResponse<V>>, k: nat)
    requires k < |rs| && !PageFails(tableName, rs[k])
    ensures var ids := PageIds(tableName, rs[k].payload).value;
      var next := ExportNextUrl(rs[k].link);
      && ExportIdsFrom(tableName, rs, k) == (if Continues(next) then Prepend(ids, ExportIdsFrom(tableName, rs, k + 1)) else Some(ids))
      && ExportRequestsFrom(tableName, rs, k) == (if Continues(next) then 1 + ExportRequestsFrom(tableName, rs, k + 1) else 1)
      && (Continues(next) ==> ExportPageUrl(first, rs, k + 1) == next.value)
  {
  }

  /** The k-th page is read without error and announces a next URL. */
  predicate PageGoesOn<V>(tableName: string, rs: seq<ExportResponse<V>>, k: nat) {
    k < |rs| && !PageFails(tableName, rs[k]) && Continues(ExportNextUrl(rs[k].link))
  }

  /** An error on a page is an error of the whole call, whatever earlier pages
      yielded: the IDs of a run that reaches a failing page are `[]`. */
  lemma {:induction false} ExportFailureDiscards<V>(tableName: string, rs: seq<ExportResponse<V>>, k: nat, n: nat)
    requires k <= n < |rs|
    requires forall i :: k <= i < n ==> PageGoesOn(tableName, rs, i)
    requires PageFails(tableName, rs[n])
    ensures ExportIdsFrom(tableName, rs, k).None?
    decreases n - k
  {
    if k < n {
      assert PageGoesOn(tableName, rs, k);
      ExportFailureDiscards(tableName, rs, k + 1, n);
      assert ExportIdsFrom(tableName, rs, k) == Prepend(PageIds(tableName, rs[k].payload).value, ExportIdsFrom(tableName, rs, k + 1));
    }
  }

  /** The IDs of the first `m` pages, one page after the other; a page that
      fails counts as none. */
  function PagesIds<V>(tableName: string, rs: seq<ExportResponse<V>>, m: nat): seq<V>
    requires m <= |rs|
  {
    if m == 0 then []
    else if PageFails(tableName, rs[m - 1]) then PagesIds(tableName, rs, m - 1)
    else PagesIds(tableName, rs, m - 1) + PageIds(tableName, rs[m - 1].payload).value
  }

  /** Pages `0` to `n - 1` of the script go on, and page `n` is read without
      error and announces no next URL. */
  predicate RunEndsAt<V>(tableName: string, rs: seq<ExportResponse<V>>, n: nat) {
    && n < |rs| && (forall i :: 0 <= i < n ==> PageGoesOn(tableName, rs, i))
    && !PageFails(tableName, rs[n]) && !Continues(ExportNextUrl(rs[n].link))
  }

  /** A run whose pages `0` to `n - 1` go on and whose page `n` is read
      without error and announces no next URL returns the IDs of pages `0`
      to `n`, in the order they were fetched, after `n + 1` requests. */
  lemma ExportIdsWholeRun<V>(tableName: string, rs: seq<ExportResponse<V>>, n: nat)
    requires n < |rs| && forall i :: 0 <= i < n ==> PageGoesOn(tableName, rs, i)
    requires !PageFails(tableName, rs[n]) && !Continues(ExportNextUrl(rs[n].link))
    ensures ExportIds(tableName, rs) == PagesIds(tableName, rs, n + 1)
    ensures ExportRequestsFrom(tableName, rs, 0) == n + 1
  {
    assert RunEndsAt(tableName, rs, n);
    ExportIdsRest(tableName, rs, n, 0, PagesIds(tableName, rs, n + 1));
  }

  /** From page `k` of such a run on, the pages before `k` and the IDs still
      to come make up the IDs of pages `0` to `n`. */
  lemma {:induction false} ExportIdsRest<V>(tableName: string, rs: seq<ExportResponse<V>>, n: nat, k: nat, total: seq<V>)
    requires k <= n && RunEndsAt(tableName, rs, n) && total == PagesIds(tableName, rs, n + 1)
    ensures ExportIdsFrom(tableName, rs, k).Some?
    ensures PagesIds(tableName, rs, k) + ExportIdsFrom(tableName, rs, k).value == total
    ensures ExportRequestsFrom(tableName, rs, k) == n + 1 - k
    decreases n - k
  {
    if k == n {
      ExportLastPage(tableName, rs, n);
    } else {
      ExportIdsRest(tableName, rs, n, k + 1, total);
      ExportPageBefore(tableName, rs, k, n, total);
    }
  }

  /** The last page of a run: its IDs are all that is left. */
  lemma ExportLastPage<V>(tableName: string, rs: seq<ExportResponse<V>>, n: nat)
    requires RunEndsAt(tableName, rs, n)
    ensures ExportIdsFrom(tableName, rs, n) == Some(PageIds(tableName, rs[n].payload).value)
    ensures PagesIds(tableName, rs, n + 1) == PagesIds(tableName, rs, n) + ExportIdsFrom(tableName, rs, n).value
    ensures ExportRequestsFrom(tableName, rs, n) == 1
  {
    ExportStep(tableName, "", rs, n);
  }

  /** A page that goes on: its IDs move from what is left to what was collected. */
  lemma ExportPageBefore<V>(tableName: string, rs: seq<ExportResponse<V>>, k: nat, n: nat, total: seq<V>)
    requires k < n && RunEndsAt(tableName, rs, n) && ExportIdsFrom(tableName, rs, k + 1).Some?
    requires PagesIds(tableName, rs, k + 1) + ExportIdsFrom(tableName, rs, k + 1).value == total
    requires ExportRequestsFrom(tableName, rs, k + 1) == n - k
    ensures ExportIdsFrom(tableName, rs, k).Some?
    ensures PagesIds(tableName, rs, k) + ExportIdsFrom(tableName, rs, k).value == total
    ensures ExportRequestsFrom(tableName, rs, k) == n + 1 - k
  {
    assert PageGoesOn(tableName, rs, k);
    ExportStep(tableName, "", rs, k);
    var page := PageIds(tableName, rs[k].payload).value;
    assert PagesIds(tableName, rs, k + 1) == PagesIds(tableName, rs, k) + page;
    Reassociate(PagesIds(tableName, rs, k), page, ExportIdsFrom(tableName, rs, k + 1).value);
  }

  lemma Reassociate<T>(a: seq<T>, b: seq<T>, c: seq<T>)
    ensures a + (b + c) == (a + b) + c
  {
  }

  /** A server that stops answering early can only turn the result into an
      error: the IDs are all or nothing. */
  lemma {:induction false} ExportIdsAllOrNothing<V>(tableName: string, rs: seq<ExportResponse<V>>, m: nat, k: nat)
    requires k <= m <= |rs|
    ensures ExportIdsFrom(tableName, rs[..m], k).None?
      || ExportIdsFrom(tableName, rs[..m], k) == ExportIdsFrom(tableName, rs, k)
    decreases m - k
  {
    if k < m {
      assert rs[..m][k] == rs[k];
      if !PageFails(tableName, rs[k]) && Continues(ExportNextUrl(rs[k].link)) {
        ExportIdsAllOrNothing(tableName, rs, m, k + 1);
      }
    }
  }

  // ---------------------------------------------------------------------------
  // `main`: the tables to run and the loads

  /** `valid_tables` in `main`. */
  const ValidTables: seq<string> := ["Organizations", "Referrers", "Influencers", "Units",
    "HousingContracts", "DepositTransactions", "MarketingTouchpoints", "ServiceAgreements",
    "Traits", "Prospects", "Residents", "Activities"]

  /** `TABLES_TO_PROCESS`. */
  const TablesToProcess: seq<string> := ["Organizations", "Referrers", "Influencers", "Units",
    "HousingContracts", "DepositTransactions", "MarketingTouchpoints", "ServiceAgreements",
    "Traits", "Prospects", "Residents", "Activities"]

  /** `[table.strip() for table in parts]`. */
  function StripAll(parts: seq<string>): (r: seq<string>)
    ensures |r| == |parts|
    ensures forall i :: 0 <= i < |parts| ==> r[i] == Strip(parts[i])
  {
    seq(|parts|, i requires 0 <= i < |parts| => Strip(parts[i]))
  }

  /** Each table name is its part less the whitespace at its two ends and
      nothing else, and is the only string that is. */
  lemma StripAllStrips(parts: seq<string>, i: nat, name: string)
    requires i < |parts|
    ensures StrippedFrom(StripAll(parts)[i], parts[i])
    ensures StrippedFrom(name, parts[i]) ==> name == StripAll(parts)[i]
  {
    StripSpec(parts[i]);
    if StrippedFrom(name, parts[i]) {
      StrippedUnique(name, StripAll(parts)[i], parts[i]);
    }
  }

  /** The tables named on the command line, comma-separated with surrounding
      whitespace dropped; `TABLES_TO_PROCESS` when no (or an empty) list is given. */
  function TablesToRun(specificTables: Option<string>): seq<string> {
    if specificTables.None? || specificTables.value == "" then TablesToProcess
    else StripAll(Split(specificTables.value, ','))
  }

  /** Every name of the list is a valid table. */
  predicate AllValid(tables: seq<string>) {
    forall i :: 0 <= i < |tables| ==> tables[i] in ValidTables
  }

  /** `name` is the first invalid name of the list. */
  predicate FirstInvalid(tables: seq<string>, name: string) {
    exists i :: 0 <= i < |tables| && tables[i] == name && name !in ValidTables && AllValid(tables[..i])
  }

  /** The table list of a run, or the first invalid name (`sys.exit(1)`). */
  method SelectTables(specificTables: Option<string>) returns (r: Result<seq<string>, string>)
    ensures specificTables.None? || specificTables.value == "" ==> r == Ok(TablesToProcess)
    ensures r.Ok? ==> r.value == TablesToRun(specificTables)
    ensures r.Ok? <==> (specificTables.None? || specificTables.value == "" || AllValid(TablesToRun(specificTables)))
    ensures r.Err? ==> FirstInvalid(TablesToRun(specificTables), r.error)
  {
    if specificTables.None? || specificTables.value == "" {
      return Ok(TablesToProcess);
    }
    var tablesToRun := StripAll(Split(specificTables.value, ','));
    var invalid := FindInvalid(tablesToRun);
    if invalid.Some? {
      return Err(invalid.value);
    }
    return Ok(tablesToRun);
  }

  /** The check loop of `main`: the first name that is not a valid table. */
  method FindInvalid(tables: seq<string>) returns (invalid: Option<string>)
    ensures invalid.None? <==> AllValid(tables)
    ensures invalid.Some? ==> FirstInvalid(tables, invalid.value)
  {
    for i := 0 to |tables|
      invariant AllValid(tables[..i])
    {
      if tables[i] !in ValidTables {
        return Some(tables[i]);
      }
      assert tables[..i + 1] == tables[..i] + [tables[i]];
    }
    assert tables[..|tables|] == tables;
    return None;
  }

  /** A call of `create_table_and_load_data` for a table and its IDs. */
  datatype Load<V> = Load(table: string, ids: seq<V>)

  /** How `main` ends: without a connection, on an invalid table name, after
      every table, or with the exception of a load that raised (which stops
      the remaining tables). */
  datatype ExportOutcome<V> =
    | NoConnection
    | InvalidTable(name: string)
    | Finished(loads: seq<Load<V>>)
    | LoadRaised(loads: seq<Load<V>>)

  /** Prefixes one load to the outcome of the remaining tables. */
  function Then<V>(l: Load<V>, rest: ExportOutcome<V>): ExportOutcome<V> {
    match rest
    case Finished(ls) => Finished([l] + ls)
    case LoadRaised(ls) => LoadRaised([l] + ls)
    case _ => rest
  }

  /** `fetch_all_ids_from_api` with its default page size. */
  const RecordsPerPage: nat := 10000

  /** The outside world of the per-table loop, call by call: `servers(p)` is
      the script the API follows for the fetch of the table at position `p`
      of the list, and `loadRaises(p)` says whether its load raises. A table
      named twice is fetched and loaded twice, each time on its own terms. */
  datatype World<V> = World(servers: nat -> seq<ExportResponse<V>>, loadRaises: nat -> bool)

  /** The loads of the per-table loop over `tables` from position `i` on: a
      table is loaded only when its ID list is non-empty, and a load that
      raises ends the loop. */
  function RunTablesFrom<V>(tables: seq<string>, i: nat, w: World<V>): ExportOutcome<V>
    requires i <= |tables|
    decreases |tables| - i
  {
    if i == |tables| then Finished([])
    else
      var ids := ExportIds(tables[i], w.servers(i));
      if |ids| == 0 then RunTablesFrom(tables, i + 1, w)
      else if w.loadRaises(i) then LoadRaised([Load(tables[i], ids)])
      else Then(Load(tables[i], ids), RunTablesFrom(tables, i + 1, w))
  }

  /** The loads of the per-table loop over the whole list. */
  function RunTables<V>(tables: seq<string>, w: World<V>): ExportOutcome<V> {
    RunTablesFrom(tables, 0, w)
  }

  /** The load `l` is the load of the table at position `p`, carrying the ID
      list, non-empty, that the fetch for that position returned. */
  ghost predicate LoadOf<V>(l: Load<V>, tables: seq<string>, w: World<V>, p: nat) {
    p < |tables| && l.table == tables[p] && |l.ids| > 0 && l.ids == ExportIds(tables[p], w.servers(p))
  }

  /** Every load is the load of a table at a position `i` or later, and the
      positions increase from one load to the next. */
  ghost predicate LoadsSound<V>(ls: seq<Load<V>>, tables: seq<string>, w: World<V>, i: nat) {
    exists ps: seq<nat> :: |ps| == |ls| && PositionsFrom(ls, tables, w, i, ps)
  }

  ghost predicate PositionsFrom<V>(ls: seq<Load<V>>, tables: seq<string>, w: World<V>, i: nat, ps: seq<nat>)
    requires |ps| == |ls|
  {
    IncreasingFrom(ps, i) && forall k :: 0 <= k < |ls| ==> LoadOf(ls[k], tables, w, ps[k])
  }

  /** The positions are at least `i` and increase. */
  predicate IncreasingFrom(ps: seq<nat>, i: nat) {
    && (forall k :: 0 <= k < |ps| ==> i <= ps[k])
    && (forall k, m :: 0 <= k < m < |ps| ==> ps[k] < ps[m])
  }

  lemma IncreasingCons(i: nat, ps: seq<nat>)
    requires IncreasingFrom(ps, i + 1)
    ensures IncreasingFrom([i] + ps, i)
  {
    var ps' := [i] + ps;
    assert forall k :: 0 < k < |ps'| ==> ps'[k] == ps[k - 1];
  }

  /** The loop ends after every table or at a raising load, and loads, in
      list order, only tables whose fetch returned IDs. */
  lemma {:induction false} RunTablesLoadsSound<V>(tables: seq<string>, i: nat, w: World<V>)
    requires i <= |tables|
    ensures RunTablesFrom(tables, i, w).Finished? || RunTablesFrom(tables, i, w).LoadRaised?
    ensures LoadsSound(RunTablesFrom(tables, i, w).loads, tables, w, i)
    decreases |tables| - i
  {
    if i == |tables| {
      assert PositionsFrom([], tables, w, i, []);
    } else {
      RunTablesLoadsSound(tables, i + 1, w);
      var rest := RunTablesFrom(tables, i + 1, w);
      var ps :| |ps| == |rest.loads| && PositionsFrom(rest.loads, tables, w, i + 1, ps);
      RunTablesStep(tables, i, w, ps);
    }
  }

  /** The table at position `i`, in front of sound loads of the later ones. */
  lemma RunTablesStep<V>(tables: seq<string>, i: nat, w: World<V>, ps: seq<nat>)
    requires i < |tables|
    requires var rest := RunTablesFrom(tables, i + 1, w);
      (rest.Finished? || rest.LoadRaised?) && |ps| == |rest.loads| && PositionsFrom(rest.loads, tables, w, i + 1, ps)
    ensures RunTablesFrom(tables, i, w).Finished? || RunTablesFrom(tables, i, w).LoadRaised?
    ensures LoadsSound(RunTablesFrom(tables, i, w).loads, tables, w, i)
  {
    var rest := RunTablesFrom(tables, i + 1, w);
    var ids := ExportIds(tables[i], w.servers(i));
    if |ids| == 0 {
      PositionsLater(rest.loads, tables, w, i, ps);
    } else {
      var l := Load(tables[i], ids);
      assert LoadOf(l, tables, w, i);
      if w.loadRaises(i) {
        assert PositionsFrom([l], tables, w, i, [i]);
      } else {
        LoadsSoundCons(l, rest.loads, tables, w, i, ps);
        assert RunTablesFrom(tables, i, w).loads == [l] + rest.loads;
      }
    }
  }

  /** Positions after `i` are positions from `i` on. */
  lemma PositionsLater<V>(ls: seq<Load<V>>, tables: seq<string>, w: World<V>, i: nat, ps: seq<nat>)
    requires |ps| == |ls| && PositionsFrom(ls, tables, w, i + 1, ps)
    ensures PositionsFrom(ls, tables, w, i, ps)
  {
  }

  /** A load at position `i` in front of loads at later positions. */
  lemma LoadsSoundCons<V>(l: Load<V>, ls: seq<Load<V>>, tables: seq<string>, w: World<V>, i: nat, ps: seq<nat>)
    requires LoadOf(l, tables, w, i) && |ps| == |ls| && PositionsFrom(ls, tables, w, i + 1, ps)
    ensures PositionsFrom([l] + ls, tables, w, i, [i] + ps)
  {
    var ls', ps' := [l] + ls, [i] + ps;
    IncreasingCons(i, ps);
    assert forall k :: 0 < k < |ls'| ==> ls'[k] == ls[k - 1] && ps'[k] == ps[k - 1];
  }

  /** `main(specific_tables)`: `connected` says whether `get_snowflake_connection()`
      returned a connection, and `w` answers the fetches and loads. */
  method ExportMain<V>(connected: bool, specificTables: Option<string>, w: World<V>)
    returns (outcome: ExportOutcome<V>)
    ensures !connected ==> outcome == NoConnection
    ensures connected ==>
      var tables := TablesToRun(specificTables);
      if specificTables.None? || specificTables.value == "" || AllValid(tables)
      then outcome == RunTables(tables, w)
      else outcome.InvalidTable? && FirstInvalid(tables, outcome.name)
  {
    if !connected {
      return NoConnection;
    }
    var selected := SelectTables(specificTables);
    if selected.Err? {
      return InvalidTable(selected.error);
    }
    outcome := LoadTables(selected.value, w);
  }

  /** The per-table loop of `main`: fetch each table's IDs, load a non-empty
      list, and stop at a load that raises. */
  method LoadTables<V>(tables: seq<string>, w: World<V>) returns (outcome: ExportOutcome<V>)
    ensures outcome == RunTables(tables, w)
  {
    var loads: seq<Load<V>> := [];
    for i := 0 to |tables|
      invariant LoadsAt(tables, w, i, loads)
    {
      var table := tables[i];
      var ids, _ := FetchAllIds(table, RecordsPerPage, w.servers(i));
      if |ids| > 0 {
        if w.loadRaises(i) {
          LoadsRaise(tables, w, i, loads);
          return LoadRaised(loads + [Load(table, ids)]);
        }
        LoadsNext(tables, w, i, loads);
        loads := loads + [Load(table, ids)];
      }
    }
    return Finished(loads);
  }

  /** Before the table at position `i`, the loads so far followed by the
      outcome of the tables from `i` on make up the loop's outcome. */
  ghost predicate LoadsAt<V>(tables: seq<string>, w: World<V>, i: nat, loads: seq<Load<V>>) {
    i <= |tables| && RunTables(tables, w) == Prefixed(loads, RunTablesFrom(tables, i, w))
  }

  lemma LoadsRaise<V>(tables: seq<string>, w: World<V>, i: nat, loads: seq<Load<V>>)
    requires LoadsAt(tables, w, i, loads) && i < |tables|
    requires |ExportIds(tables[i], w.servers(i))| > 0 && w.loadRaises(i)
    ensures RunTables(tables, w) == LoadRaised(loads + [Load(tables[i], ExportIds(tables[i], w.servers(i)))])
  {
  }

  lemma LoadsNext<V>(tables: seq<string>, w: World<V>, i: nat, loads: seq<Load<V>>)
    requires LoadsAt(tables, w, i, loads) && i < |tables|
    requires |ExportIds(tables[i], w.servers(i))| > 0 && !w.loadRaises(i)
    ensures LoadsAt(tables, w, i + 1, loads + [Load(tables[i], ExportIds(tables[i], w.servers(i)))])
  {
    PrefixedThen(loads, Load(tables[i], ExportIds(tables[i], w.servers(i))), RunTablesFrom(tables, i + 1, w));
  }

  /** Prefixes several loads to an outcome. */
  function Prefixed<V>(ls: seq<Load<V>>, rest: ExportOutcome<V>): ExportOutcome<V> {
    match rest
    case Finished(more) => Finished(ls + more)
    case LoadRaised(more) => LoadRaised(ls + more)
    case _ => rest
  }

  lemma PrefixedThen<V>(ls: seq<Load<V>>, l: Load<V>, rest: ExportOutcome<V>)
    ensures Prefixed(ls, Then(l, rest)) == Prefixed(ls + [l], rest)
  {
    match rest
    case Finished(more) => assert ls + ([l] + more) == (ls + [l]) + more;
    case LoadRaised(more) => assert ls + ([l] + more) == (ls + [l]) + more;
    case _ =>
  }
}
