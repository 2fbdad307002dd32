/**
 * `cargar_y_unificar_por_orden`: load the tables of the sources named in a
 * caller-given order (through a cache that only ever gains entries), tag
 * every row with its photo folder, its source's rank and its numeric year,
 * concatenate, and sort by (year, missing last; rank; file name).
 */
module Unifier {
  import opened Wrappers
  import opened Strings
  import opened Tables
  import opened Sorting

  /** One individual query: its spreadsheet and the folder of its photos. */
  datatype SourceConfig = SourceConfig(name: string, excelFile: string, photoFolder: string)

  /** `consultas_individuales` */
  const IndividualQueries: map<string, SourceConfig> := map[
    "1" := SourceConfig("FAMILIA CONER", "t_fotos coner.xlsx", "FOTOSCO"),
    "2" := SourceConfig("FAMILIA VELASCO ESPINOSA", "fotos.xlsx", "FOTOSVE"),
    "3" := SourceConfig("FAMILIA VELASCO ENDARA", "hijos.xlsx", "HIJOS")
  ]

  /** A global query: the sources to merge, in rank order. */
  datatype GlobalQuery = GlobalQuery(name: string, loadOrder: seq<string>)

  /** `consultas_globales` */
  const GlobalQueries: map<string, GlobalQuery> := map[
    "41" := GlobalQuery("CONSULTA GLOBAL (Orden 1, 2, 3)", ["1", "2", "3"]),
    "42" := GlobalQuery("CONSULTA GLOBAL (Orden 2, 1, 3)", ["2", "1", "3"]),
    "43" := GlobalQuery("CONSULTA GLOBAL (Orden 3, 1, 2)", ["3", "1", "2"])
  ]

  /** `GCS_BASE_PATH` */
  const BasePath := "gs://" + BucketName + "/"

  const FolderColumn := "_FOLDER_PATH"
  const PhotoNameColumn := "NOMBRE_FOTO"

  /** The columns the unifier adds, in the order it adds them. */
  const TagColumns: seq<string> := [FolderColumn, "_ORDER_INDEX", "AÑO_NUM", PhotoNameColumn]

  /** The sort helpers, dropped again once the rows are sorted. */
  const HelperColumns: set<string> := {"AÑO_NUM", "_ORDER_INDEX"}

  /** The cache key of a source: its spreadsheet name, upper-cased. */
  function CacheKey(cfg: SourceConfig): string {
    Upper(cfg.excelFile)
  }

  /** Spreadsheet names that differ only in case share one cache entry, and
      only those do. */
  lemma CacheKeySameIff(a: SourceConfig, b: SourceConfig)
    ensures CacheKey(a) == CacheKey(b) <==> Fold(a.excelFile) == Fold(b.excelFile)
  {
    UpperSameIff(a.excelFile, b.excelFile);
  }

  /** `GCS_BASE_PATH.rstrip('/') + '/' + folder.lstrip('/')`: the bucket's
      root, exactly one '/', then the folder without its leading '/'. */
  function FolderPath(folder: string): (p: string)
    ensures p == "gs://" + BucketName + "/" + TrimStartChar(folder, '/')
  {
    var root := "gs://" + BucketName;
    assert BasePath == root + "/" && BasePath[..|root|] == root;
    assert root[|root| - 1] != '/';
    assert TrimEndChar(BasePath, '/') == TrimEndChar(root, '/') == root;
    TrimEndChar(BasePath, '/') + "/" + TrimStartChar(folder, '/')
  }

  /** `str(row['NOMBRE']).strip()` */
  function PhotoName(r: Row): string {
    Strip(AsStr(Get(r, "NOMBRE")))
  }

  /** A photo's file name has no white space at either end, so stripping it
      again changes nothing. */
  lemma PhotoNameIsTrimmed(r: Row)
    ensures var n := PhotoName(r);
      && Strip(n) == n
      && (n == [] || (!IsSpace(n[0]) && !IsSpace(n[|n| - 1])))
  {
    StripIdempotent(AsStr(Get(r, "NOMBRE")));
    StripShape(AsStr(Get(r, "NOMBRE")));
  }

  /** A row with the folder and the trimmed file name attached
      (`_FOLDER_PATH`, `NOMBRE_FOTO`). */
  function BaseRow(r: Row, folderPath: string): (b: Row)
    ensures Get(b, FolderColumn) == Text(folderPath)
    ensures Get(b, PhotoNameColumn) == Text(PhotoName(r))
  {
    r[FolderColumn := Text(folderPath)][PhotoNameColumn := Text(PhotoName(r))]
  }

  /** Setting two distinct keys of a row adds exactly those keys and keeps
      every other cell. */
  lemma SetTwoKeeps(r: Row, k1: string, v1: Cell, k2: string, v2: Cell)
    ensures var b := r[k1 := v1][k2 := v2];
      && (forall k :: k in b <==> k in r || k == k1 || k == k2)
      && forall k :: k in r && k != k1 && k != k2 ==> b[k] == r[k]
  {
  }

  /** Attaching the two cells adds exactly those keys and keeps every other
      cell of the source row. */
  lemma BaseRowKeeps(r: Row, folderPath: string)
    ensures var b := BaseRow(r, folderPath);
      && (forall k :: k in b <==> k in r || k == FolderColumn || k == PhotoNameColumn)
      && forall k :: k in r && k != FolderColumn && k != PhotoNameColumn ==> b[k] == r[k]
  {
    SetTwoKeeps(r, FolderColumn, Text(folderPath), PhotoNameColumn, Text(PhotoName(r)));
  }

  /** A unified row together with its sort keys. */
  datatype Tagged = Tagged(row: Row, year: Option<int>, rank: int, name: string)

  /** A source row as `temp_df` holds it once tagged, its sort keys beside it. */
  function TagRow(r: Row, folderPath: string, rank: int): (t: Tagged)
    ensures t.rank == rank && t.year == RowYear(r) && t.name == PhotoName(r)
  {
    Tagged(BaseRow(r, folderPath) - HelperColumns, RowYear(r), rank, PhotoName(r))
  }

  /** A tagged row carries the folder path and the trimmed file name. */
  lemma TagRowColumns(r: Row, folderPath: string, rank: int)
    ensures var t := TagRow(r, folderPath, rank);
      && Get(t.row, FolderColumn) == Text(folderPath)
      && Get(t.row, PhotoNameColumn) == Text(t.name)
  {
    var b := BaseRow(r, folderPath);
    assert FolderColumn !in HelperColumns && PhotoNameColumn !in HelperColumns;
    assert Get(b, FolderColumn) == Text(folderPath);
  }

  /** In a tagged row the helper columns are gone and every other column
      keeps the source's value. */
  lemma TagRowKeeps(r: Row, folderPath: string, rank: int)
    ensures var t := TagRow(r, folderPath, rank);
      && (forall c :: c in HelperColumns ==> c !in t.row)
      && (forall c :: c !in HelperColumns && c != FolderColumn && c != PhotoNameColumn ==> Get(t.row, c) == Get(r, c))
  {
    var b := BaseRow(r, folderPath);
    var t := TagRow(r, folderPath, rank);
    BaseRowKeeps(r, folderPath);
    assert t.row == b - HelperColumns;
    forall c | c !in HelperColumns && c != FolderColumn && c != PhotoNameColumn
      ensures Get(t.row, c) == Get(r, c)
    {
      if c in r {
        assert b[c] == r[c];
      } else {
        assert c !in b;
      }
    }
  }

  /** `sort_values(by=['AÑO_NUM', '_ORDER_INDEX', 'NOMBRE_FOTO'], na_position='last')` */
  predicate KeyLe(a: Tagged, b: Tagged) {
    if a.year != b.year then YearLe(a.year, b.year)
    else if a.rank != b.rank then a.rank < b.rank
    else StrLe(a.name, b.name)
  }

  lemma KeyLeIsTotalPreorder()
    ensures TotalPreorder(KeyLe)
  {
    forall a: Tagged, b: Tagged ensures KeyLe(a, b) || KeyLe(b, a) {
      StrLeTotal(a.name, b.name);
    }
    forall a: Tagged, b: Tagged, c: Tagged | KeyLe(a, b) && KeyLe(b, c) ensures KeyLe(a, c) {
      if a.year == b.year == c.year && a.rank == b.rank == c.rank {
        StrLeTransitive(a.name, b.name, c.name);
      }
    }
  }

  /** `{key: i for i, key in enumerate(order)}[key]`: a key listed twice gets
      the position of its last occurrence. */
  function OrderIndex(order: seq<string>, key: string): (i: nat)
    requires key in order
    ensures i < |order| && order[i] == key && key !in order[i + 1..]
  {
    if order[|order| - 1] == key then |order| - 1
    else
      var i := OrderIndex(order[..|order| - 1], key);
      assert order[i + 1..] == order[..|order| - 1][i + 1..] + [order[|order| - 1]];
      i
  }

  /** With no key listed twice, a source's rank is its position in the order. */
  lemma OrderIndexOfDistinct(order: seq<string>, i: int)
    requires 0 <= i < |order|
    requires forall a, b :: 0 <= a < b < |order| ==> order[a] != order[b]
    ensures OrderIndex(order, order[i]) == i
  {
    var k := OrderIndex(order, order[i]);
    assert order[k] == order[i];
  }

  /** The rows of one loaded source, as `temp_df` holds them. */
  datatype Frame = Frame(columns: seq<string>, rows: seq<Tagged>)

  function TagTable(t: Table, folderPath: string, rank: int): (f: Frame)
    ensures |f.rows| == |t.rows|
    ensures forall i :: 0 <= i < |t.rows| ==> f.rows[i] == TagRow(t.rows[i], folderPath, rank)
  {
    Frame(AppendNew(t.columns, TagColumns),
          seq(|t.rows|, i requires 0 <= i < |t.rows| => TagRow(t.rows[i], folderPath, rank)))
  }

  /** The cached table a key of the order stands for, when it names a source
      and is in the cache. */
  function CachedTable(key: string, sources: map<string, SourceConfig>, cache: map<string, Table>): Option<Table> {
    if key in sources && CacheKey(sources[key]) in cache then Some(cache[CacheKey(sources[key])]) else None
  }

  /** A key contributes rows when it names a source whose cached table is not empty. */
  predicate Contributes(key: string, sources: map<string, SourceConfig>, cache: map<string, Table>) {
    var t := CachedTable(key, sources, cache);
    t.Some? && !IsEmpty(t.value)
  }

  /** The frame a key of the order contributes, if any. */
  function SourceFrame(order: seq<string>, key: string, sources: map<string, SourceConfig>, cache: map<string, Table>): Option<Frame>
    requires key in order
  {
    if Contributes(key, sources, cache) then
      Some(TagTable(CachedTable(key, sources, cache).value, FolderPath(sources[key].photoFolder), OrderIndex(order, key)))
    else None
  }

  /** `df_list` after the loop has visited `keys`. */
  function Frames(order: seq<string>, keys: seq<string>, sources: map<string, SourceConfig>, cache: map<string, Table>): seq<Frame>
    requires forall k :: k in keys ==> k in order
  {
    if keys == [] then []
    else
      var last := keys[|keys| - 1];
      Frames(order, keys[..|keys| - 1], sources, cache) +
        (match SourceFrame(order, last, sources, cache) case Some(f) => [f] case None => [])
  }

  lemma FramesSnoc(order: seq<string>, keys: seq<string>, key: string, sources: map<string, SourceConfig>, cache: map<string, Table>)
    requires forall k :: k in keys ==> k in order
    requires key in order
    ensures Frames(order, keys + [key], sources, cache) ==
      Frames(order, keys, sources, cache) + (match SourceFrame(order, key, sources, cache) case Some(f) => [f] case None => [])
  {
    assert (keys + [key])[..|keys|] == keys;
  }

  /** `pd.concat(df_list)`: the rows. */
  function ConcatRows(frames: seq<Frame>): seq<Tagged> {
    if frames == [] then [] else ConcatRows(frames[..|frames| - 1]) + frames[|frames| - 1].rows
  }

  /** `pd.concat(df_list)`: the columns, in order of first appearance. */
  function ConcatColumns(frames: seq<Frame>): seq<string> {
    if frames == [] then [] else AppendNew(ConcatColumns(frames[..|frames| - 1]), frames[|frames| - 1].columns)
  }

  /** A column of the concatenation is a column of one of the frames. */
  lemma {:induction false} ConcatColumnsMembers(frames: seq<Frame>)
    ensures forall c :: c in ConcatColumns(frames) <==> exists i :: 0 <= i < |frames| && c in frames[i].columns
  {
    if frames != [] {
      var init := frames[..|frames| - 1];
      ConcatColumnsMembers(init);
      assert ConcatColumns(frames) == AppendNew(ConcatColumns(init), frames[|frames| - 1].columns);
      forall c | c in ConcatColumns(frames) ensures exists i :: 0 <= i < |frames| && c in frames[i].columns {
        if c !in frames[|frames| - 1].columns {
          var i :| 0 <= i < |init| && c in init[i].columns;
          assert frames[i] == init[i];
        }
      }
      forall c, i | 0 <= i < |frames| && c in frames[i].columns ensures c in ConcatColumns(frames) {
        if i < |init| {
          assert init[i] == frames[i];
        }
      }
    }
  }

  /** `pd.concat(df_list)`, sorted by the key triple, helper columns dropped;
      `None` when `df_list` is empty. The columns are those of the frames
      but the helpers, and every concatenated row is kept. */
  function Assemble(frames: seq<Frame>): (r: Option<Table>)
    ensures r.None? <==> frames == []
    ensures r.Some? ==> |r.value.rows| == |ConcatRows(frames)|
    ensures r.Some? ==> forall c :: c in r.value.columns <==>
      c !in HelperColumns && exists i :: 0 <= i < |frames| && c in frames[i].columns
  {
    ConcatColumnsMembers(frames);
    if frames == [] then None
    else
      KeyLeIsTotalPreorder();
      var sorted := SortBy(ConcatRows(frames), KeyLe);
      Some(Table(DropColumns(ConcatColumns(frames), HelperColumns),
                 seq(|sorted|, i requires 0 <= i < |sorted| => sorted[i].row)))
  }

  /** The merged rows in canonical order, with their sort keys. */
  function UnifiedTagged(order: seq<string>, sources: map<string, SourceConfig>, cache: map<string, Table>): seq<Tagged> {
    KeyLeIsTotalPreorder();
    SortBy(ConcatRows(Frames(order, order, sources, cache)), KeyLe)
  }

  /** The result of `cargar_y_unificar_por_orden` once the cache holds every
      table of the order: `None` when no source contributed. */
  function Unify(order: seq<string>, sources: map<string, SourceConfig>, cache: map<string, Table>): (r: Option<Table>)
    ensures r.None? <==> forall k :: k in order ==> !Contributes(k, sources, cache)
  {
    FramesEmptyIff(order, order, sources, cache);
    Assemble(Frames(order, order, sources, cache))
  }

  // ----------------------------------------------------------- properties

  /** The rows of the sources that contribute among `keys`, counted per visit. */
  function ContributedRows(keys: seq<string>, sources: map<string, SourceConfig>, cache: map<string, Table>): nat {
    if keys == [] then 0
    else
      var last := keys[|keys| - 1];
      ContributedRows(keys[..|keys| - 1], sources, cache) +
        (if Contributes(last, sources, cache) then |CachedTable(last, sources, cache).value.rows| else 0)
  }

  lemma {:induction false} FramesEmptyIff(order: seq<string>, keys: seq<string>, sources: map<string, SourceConfig>, cache: map<string, Table>)
    requires forall k :: k in keys ==> k in order
    ensures Frames(order, keys, sources, cache) == [] <==> forall k :: k in keys ==> !Contributes(k, sources, cache)
  {
    if keys != [] {
      var init := keys[..|keys| - 1];
      assert keys == init + [keys[|keys| - 1]];
      FramesEmptyIff(order, init, sources, cache);
    }
  }

  lemma {:induction false} ConcatRowsCount(order: seq<string>, keys: seq<string>, sources: map<string, SourceConfig>, cache: map<string, Table>)
    requires forall k :: k in keys ==> k in order
    ensures |ConcatRows(Frames(order, keys, sources, cache))| == ContributedRows(keys, sources, cache)
  {
    if keys != [] {
      var init := keys[..|keys| - 1];
      var frames := Frames(order, keys, sources, cache);
      ConcatRowsCount(order, init, sources, cache);
      if Contributes(keys[|keys| - 1], sources, cache) {
        assert frames[..|frames| - 1] == Frames(order, init, sources, cache);
      } else {
        assert frames == Frames(order, init, sources, cache);
      }
    }
  }

  /** The unifier fails exactly when no source of the order contributed rows:
      an unknown key, a failed load and an empty table are all skipped. */
  lemma UnifyNoneIff(order: seq<string>, sources: map<string, SourceConfig>, cache: map<string, Table>)
    ensures Unify(order, sources, cache).None? <==>
      forall k :: k in order ==> k !in sources || CacheKey(sources[k]) !in cache || IsEmpty(cache[CacheKey(sources[k])])
  {
    FramesEmptyIff(order, order, sources, cache);
  }

  /** The merged table has as many rows as the contributing sources together,
      and those rows in canonical order: sorted by (year, missing last; rank;
      file name) and a permutation of the concatenated tables. */
  lemma UnifyRowsAndOrder(order: seq<string>, sources: map<string, SourceConfig>, cache: map<string, Table>)
    requires Unify(order, sources, cache).Some?
    ensures var tagged := UnifiedTagged(order, sources, cache);
      && |Unify(order, sources, cache).value.rows| == ContributedRows(order, sources, cache)
      && SortedBy(tagged, KeyLe)
      && multiset(tagged) == multiset(ConcatRows(Frames(order, order, sources, cache)))
      && forall i :: 0 <= i < |tagged| ==> Unify(order, sources, cache).value.rows[i] == tagged[i].row
  {
    ConcatRowsCount(order, order, sources, cache);
  }

  /** Each row carries the tags of the source it came from. */
  ghost predicate TaggedFrom(t: Tagged, order: seq<string>, key: string, sources: map<string, SourceConfig>, cache: map<string, Table>)
    requires key in order
  {
    && Contributes(key, sources, cache)
    && exists r :: r in CachedTable(key, sources, cache).value.rows && t == TagRow(r, FolderPath(sources[key].photoFolder), OrderIndex(order, key))
  }

  lemma SourceFrameTagged(order: seq<string>, key: string, sources: map<string, SourceConfig>, cache: map<string, Table>)
    requires key in order && Contributes(key, sources, cache)
    ensures forall t :: t in SourceFrame(order, key, sources, cache).value.rows ==> TaggedFrom(t, order, key, sources, cache)
  {
    var src := CachedTable(key, sources, cache).value;
    var path := FolderPath(sources[key].photoFolder);
    var rank := OrderIndex(order, key);
    var f := TagTable(src, path, rank);
    assert SourceFrame(order, key, sources, cache).value == f;
    forall t | t in f.rows ensures TaggedFrom(t, order, key, sources, cache) {
      var i :| 0 <= i < |f.rows| && f.rows[i] == t;
      var r := src.rows[i];
      assert t == TagRow(r, path, rank);
      assert r in src.rows;
    }
  }

  lemma {:induction false} ConcatRowsTagged(order: seq<string>, keys: seq<string>, sources: map<string, SourceConfig>, cache: map<string, Table>)
    requires forall k :: k in keys ==> k in order
    ensures forall t :: t in ConcatRows(Frames(order, keys, sources, cache)) ==>
      exists k :: k in keys && TaggedFrom(t, order, k, sources, cache)
  {
    if keys != [] {
      var init := keys[..|keys| - 1];
      var last := keys[|keys| - 1];
      var earlier := Frames(order, init, sources, cache);
      ConcatRowsTagged(order, init, sources, cache);
      assert forall k :: k in init ==> k in keys;
      if Contributes(last, sources, cache) {
        var f := SourceFrame(order, last, sources, cache).value;
        var frames := earlier + [f];
        assert frames[..|frames| - 1] == earlier;
        assert ConcatRows(frames) == ConcatRows(earlier) + f.rows;
        SourceFrameTagged(order, last, sources, cache);
        forall t | t in ConcatRows(frames) ensures exists k :: k in keys && TaggedFrom(t, order, k, sources, cache) {
          if t in f.rows {
            assert TaggedFrom(t, order, last, sources, cache);
          } else {
            assert t in ConcatRows(earlier);
          }
        }
      } else {
        assert Frames(order, keys, sources, cache) == earlier;
      }
    }
  }

  /** Every unified row comes from a contributing source of the order and
      carries that source's rank and folder path. */
  lemma UnifiedRowsTagged(order: seq<string>, sources: map<string, SourceConfig>, cache: map<string, Table>)
    ensures forall t :: t in UnifiedTagged(order, sources, cache) ==>
      exists k :: k in order && TaggedFrom(t, order, k, sources, cache)
  {
    ConcatRowsTagged(order, order, sources, cache);
    var tagged := UnifiedTagged(order, sources, cache);
    forall t | t in tagged ensures t in ConcatRows(Frames(order, order, sources, cache)) {
      assert t in multiset(tagged);
    }
  }

  // ----------------------------------------------------------------- cache

  /** Frames computed in a cache that only gained entries are the same. */
  lemma {:induction false} FramesStable(order: seq<string>, keys: seq<string>, sources: map<string, SourceConfig>,
                                        small: map<string, Table>, large: map<string, Table>)
    requires forall k :: k in keys ==> k in order
    requires forall k :: k in keys && k in sources ==> CacheKey(sources[k]) in small
    requires forall key :: key in small ==> key in large && large[key] == small[key]
    ensures Frames(order, keys, sources, small) == Frames(order, keys, sources, large)
  {
    if keys != [] {
      FramesStable(order, keys[..|keys| - 1], sources, small, large);
    }
  }

  /** `df_base` of an individual query, row by row. */
  function BaseRows(rows: seq<Row>, folderPath: string): (b: seq<Row>)
    ensures |b| == |rows|
    ensures forall i :: 0 <= i < |rows| ==> b[i] == BaseRow(rows[i], folderPath)
  {
    MapEach(rows, r => BaseRow(r, folderPath))
  }

  /** The rows of the individual query over one source (`df_base`), or
      nothing when its table is empty. */
  function IndividualBase(cfg: SourceConfig, t: Table): (r: Option<Table>)
    ensures r.None? <==> IsEmpty(t)
    ensures r.Some? ==> |r.value.rows| == |t.rows|
  {
    if IsEmpty(t) then None
    else Some(Table(AppendNew(t.columns, [FolderColumn, PhotoNameColumn]), BaseRows(t.rows, FolderPath(cfg.photoFolder))))
  }

  /** Every row of an individual query carries the query's folder path and
      the trimmed file name of its source row, in two new columns. */
  lemma IndividualBaseTags(cfg: SourceConfig, t: Table)
    requires !IsEmpty(t)
    ensures var b := IndividualBase(cfg, t).value;
      && FolderColumn in b.columns && PhotoNameColumn in b.columns
      && forall i :: 0 <= i < |t.rows| ==>
           Get(b.rows[i], FolderColumn) == Text(FolderPath(cfg.photoFolder)) &&
           Get(b.rows[i], PhotoNameColumn) == Text(PhotoName(t.rows[i]))
  {
    var path := FolderPath(cfg.photoFolder);
    var rows := BaseRows(t.rows, path);
    var added := [FolderColumn, PhotoNameColumn];
    assert FolderColumn in added && PhotoNameColumn in added;
    forall i | 0 <= i < |t.rows|
      ensures Get(rows[i], FolderColumn) == Text(path) && Get(rows[i], PhotoNameColumn) == Text(PhotoName(t.rows[i]))
    {
      assert rows[i] == BaseRow(t.rows[i], path);
    }
  }

  /** Every row of an individual query is its source row with the two new
      cells added and every other cell kept, and the table's columns are the
      source's columns followed by the new ones. */
  lemma IndividualBaseKeeps(cfg: SourceConfig, t: Table)
    requires !IsEmpty(t)
    ensures var b := IndividualBase(cfg, t).value;
      && |b.columns| >= |t.columns| && b.columns[..|t.columns|] == t.columns
      && forall i :: 0 <= i < |t.rows| ==>
           && (forall k :: k in b.rows[i] <==> k in t.rows[i] || k == FolderColumn || k == PhotoNameColumn)
           && forall k :: k in t.rows[i] && k != FolderColumn && k != PhotoNameColumn ==> b.rows[i][k] == t.rows[i][k]
  {
    var path := FolderPath(cfg.photoFolder);
    var rows := BaseRows(t.rows, path);
    forall i | 0 <= i < |t.rows|
      ensures forall k :: k in rows[i] <==> k in t.rows[i] || k == FolderColumn || k == PhotoNameColumn
      ensures forall k :: k in t.rows[i] && k != FolderColumn && k != PhotoNameColumn ==> rows[i][k] == t.rows[i][k]
    {
      assert rows[i] == BaseRow(t.rows[i], path);
      BaseRowKeeps(t.rows[i], path);
    }
  }

  /** The cache after visiting `keys`: a known source whose key is absent gets
      its loaded table; nothing else changes. */
  function CacheAfter(cache: map<string, Table>, keys: seq<string>, sources: map<string, SourceConfig>, storage: Storage): map<string, Table> {
    if keys == [] then cache
    else
      var c := CacheAfter(cache, keys[..|keys| - 1], sources, storage);
      var last := keys[|keys| - 1];
      if last in sources && CacheKey(sources[last]) !in c then c[CacheKey(sources[last]) := LoadExcel(sources[last].excelFile, storage)]
      else c
  }

  lemma CacheAfterSnoc(cache: map<string, Table>, keys: seq<string>, key: string, sources: map<string, SourceConfig>, storage: Storage)
    ensures CacheAfter(cache, keys + [key], sources, storage) ==
      var c := CacheAfter(cache, keys, sources, storage);
      if key in sources && CacheKey(sources[key]) !in c then c[CacheKey(sources[key]) := LoadExcel(sources[key].excelFile, storage)]
      else c
  {
    assert (keys + [key])[..|keys|] == keys;
  }

  /** After the loop every source of the order has its entry. */
  lemma {:induction false} CacheAfterHasKeys(cache: map<string, Table>, keys: seq<string>, sources: map<string, SourceConfig>, storage: Storage)
    ensures forall k :: k in keys && k in sources ==> CacheKey(sources[k]) in CacheAfter(cache, keys, sources, storage)
  {
    if keys != [] {
      var init := keys[..|keys| - 1];
      CacheAfterHasKeys(cache, init, sources, storage);
      CacheAfterKeeps(CacheAfter(cache, init, sources, storage), [keys[|keys| - 1]], sources, storage);
      assert keys == init + [keys[|keys| - 1]];
    }
  }

  /** Entries already in the cache are never replaced. */
  lemma {:induction false} CacheAfterKeeps(cache: map<string, Table>, keys: seq<string>, sources: map<string, SourceConfig>, storage: Storage)
    ensures forall key :: key in cache ==>
      key in CacheAfter(cache, keys, sources, storage) && CacheAfter(cache, keys, sources, storage)[key] == cache[key]
  {
    if keys != [] {
      CacheAfterKeeps(cache, keys[..|keys| - 1], sources, storage);
    }
  }

  /** Every new entry is the load of a source of the order, under that
      source's key; so the cache holds nothing the order did not ask for. */
  lemma {:induction false} CacheAfterNewEntries(cache: map<string, Table>, keys: seq<string>, sources: map<string, SourceConfig>, storage: Storage)
    ensures forall key :: key in CacheAfter(cache, keys, sources, storage) && key !in cache ==>
      exists k :: k in keys && k in sources && CacheKey(sources[k]) == key &&
        CacheAfter(cache, keys, sources, storage)[key] == LoadExcel(sources[k].excelFile, storage)
  {
    if keys != [] {
      var init := keys[..|keys| - 1];
      var last := keys[|keys| - 1];
      CacheAfterNewEntries(cache, init, sources, storage);
      var c := CacheAfter(cache, init, sources, storage);
      var after := CacheAfter(cache, keys, sources, storage);
      forall key | key in after && key !in cache
        ensures exists k :: k in keys && k in sources && CacheKey(sources[k]) == key && after[key] == LoadExcel(sources[k].excelFile, storage)
      {
        if key in c {
          var k :| k in init && k in sources && CacheKey(sources[k]) == key && c[key] == LoadExcel(sources[k].excelFile, storage);
          assert k in keys;
        } else {
          assert key == CacheKey(sources[last]);
        }
      }
    }
  }

  /** One visit of the loop: the cache gains the visited key's entry, and
      `df_list` the visited key's frame, computed in the grown cache. */
  lemma CollectStep(order: seq<string>, i: nat, sources: map<string, SourceConfig>, storage: Storage, cache: map<string, Table>)
    requires i < |order|
    ensures var before := CacheAfter(cache, order[..i], sources, storage);
      var after := CacheAfter(cache, order[..i + 1], sources, storage);
      && (after == if order[i] in sources && CacheKey(sources[order[i]]) !in before
                   then before[CacheKey(sources[order[i]]) := LoadExcel(sources[order[i]].excelFile, storage)]
                   else before)
      && Frames(order, order[..i + 1], sources, after) ==
         Frames(order, order[..i], sources, before) +
           (match SourceFrame(order, order[i], sources, after) case Some(f) => [f] case None => [])
  {
    var key := order[i];
    assert order[..i + 1] == order[..i] + [key];
    var before := CacheAfter(cache, order[..i], sources, storage);
    CacheAfterSnoc(cache, order[..i], key, sources, storage);
    var after := CacheAfter(cache, order[..i + 1], sources, storage);
    CacheAfterHasKeys(cache, order[..i], sources, storage);
    FramesStable(order, order[..i], sources, before, after);
    FramesSnoc(order, order[..i], key, sources, after);
  }

  /** `st.session_state.df_cache`: the loaded tables by cache key. */
  class TableCache {
    var tables: map<string, Table>

    constructor ()
      ensures tables == map[]
    {
      tables := map[];
    }

    /** `if key not in cache: cache[key] = load_excel_from_gcs(...)` */
    method EnsureLoaded(cfg: SourceConfig, storage: Storage)
      modifies this
      ensures tables == if CacheKey(cfg) in old(tables) then old(tables)
                        else old(tables)[CacheKey(cfg) := LoadExcel(cfg.excelFile, storage)]
    {
      var cacheKey := Upper(cfg.excelFile);
      if cacheKey !in tables {
        tables := tables[cacheKey := LoadExcel(cfg.excelFile, storage)];
      }
    }

    /** The loop of `cargar_y_unificar_por_orden`: visits the order, fills
        the cache where a key is absent, and collects `df_list`. */
    method CollectFrames(order: seq<string>, sources: map<string, SourceConfig>, storage: Storage) returns (frames: seq<Frame>)
      modifies this
      ensures tables == CacheAfter(old(tables), order, sources, storage)
      ensures frames == Frames(order, order, sources, tables)
    {
      frames := [];
      var i := 0;
      while i < |order|
        invariant 0 <= i <= |order|
        invariant tables == CacheAfter(old(tables), order[..i], sources, storage)
        invariant frames == Frames(order, order[..i], sources, tables)
      {
        var key := order[i];
        CollectStep(order, i, sources, storage, old(tables));
        if key in sources {
          var cfg := sources[key];
          EnsureLoaded(cfg, storage);
          var t := tables[CacheKey(cfg)];
          if !IsEmpty(t) {
            frames := frames + [TagTable(t, FolderPath(cfg.photoFolder), OrderIndex(order, key))];
          }
        }
        i := i + 1;
      }
      assert order[..i] == order;
    }

    /** `cargar_y_unificar_por_orden(order, fs, cache)`: every source of the
        order is now cached, entries already there are untouched, each new entry
        is the load of a source of the order, and the result is the unified
        table of the cached tables. */
    method LoadAndUnify(order: seq<string>, sources: map<string, SourceConfig>, storage: Storage) returns (r: Option<Table>)
      modifies this
      ensures tables == CacheAfter(old(tables), order, sources, storage)
      ensures r == Unify(order, sources, tables)
    {
      var frames := CollectFrames(order, sources, storage);
      r := Assemble(frames);
    }
  }
}
