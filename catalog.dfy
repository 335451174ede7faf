/**
 * The crawl over the search-result pages: page after page until the budget
 * is spent or a page comes back without rows, every kept row stored in a
 * dictionary keyed by its path, and the dictionary's values handed out in
 * insertion order.
 */
module Catalog {
  import opened Wrappers
  import opened Model

  /** A parsed row goes into the collection when it is a manga other than the site's test entry. */
  predicate Keep(row: Option<Manga>) {
    row.Some? && row.value.name != "Test"
  }

  /**
   * The pages requested from page `p` on when the budget ends before page
   * `n`: the crawl stops after the first page that has no rows.
   * `fetch(p)` stands for the parsed rows of page `p`.
   */
  function Requested(fetch: int -> seq<Option<Manga>>, p: int, n: int): seq<int>
    decreases n - p
  {
    if p >= n then []
    else if fetch(p) == [] then [p]
    else [p] + Requested(fetch, p + 1, n)
  }

  /** The rows read from page `p` on, in page order. */
  function Rows(fetch: int -> seq<Option<Manga>>, p: int, n: int): seq<Option<Manga>>
    decreases n - p
  {
    if p >= n || fetch(p) == [] then []
    else fetch(p) + Rows(fetch, p + 1, n)
  }

  /** The rows of the given pages, one page after the other. */
  function FetchAll(fetch: int -> seq<Option<Manga>>, pages: seq<int>): seq<Option<Manga>> {
    if pages == [] then [] else fetch(pages[0]) + FetchAll(fetch, pages[1..])
  }

  /**
   * A Python dictionary from path to manga: `keys` in insertion order and
   * the mapping itself.
   */
  datatype Collection = Collection(keys: seq<string>, table: map<string, Manga>)

  /** The keys are distinct and are exactly the keys of the mapping. */
  ghost predicate Valid(c: Collection) {
    (forall i, j :: 0 <= i < j < |c.keys| ==> c.keys[i] != c.keys[j])
    && (forall k :: k in c.table <==> k in c.keys)
  }

  /** `collection[m.path] = m`: a new key goes last, an existing key keeps its place and gets the new value. */
  function Put(c: Collection, m: Manga): Collection {
    if m.path in c.table then Collection(c.keys, c.table[m.path := m])
    else Collection(c.keys + [m.path], c.table[m.path := m])
  }

  /** The dictionary after the kept rows have been stored one after another. */
  function Gather(rows: seq<Option<Manga>>): Collection {
    if rows == [] then Collection([], map[])
    else
      var c := Gather(rows[..|rows| - 1]);
      var row := rows[|rows| - 1];
      if Keep(row) then Put(c, row.value) else c
  }

  /** Storing one more row. */
  lemma {:induction false} GatherSnoc(rows: seq<Option<Manga>>, row: Option<Manga>)
    ensures Gather(rows + [row]) == if Keep(row) then Put(Gather(rows), row.value) else Gather(rows)
  {
    assert (rows + [row])[..|rows|] == rows;
  }

  /** `collection.values()`: the values in key insertion order. */
  function Values(c: Collection): (ms: seq<Manga>)
    requires Valid(c)
    ensures |ms| == |c.keys|
    ensures forall i :: 0 <= i < |ms| ==> ms[i] == c.table[c.keys[i]]
  {
    seq(|c.keys|, i requires 0 <= i < |c.keys| => c.table[c.keys[i]])
  }

  /**
   * `get_manga`: the loop over the pages and the rows of each page. It
   * returns the manga and the page numbers it requested.
   */
  method GetManga(fetch: int -> seq<Option<Manga>>, numberOfPages: int)
    returns (mangas: seq<Manga>, pages: seq<int>)
    ensures pages == Requested(fetch, 0, numberOfPages)
    ensures Valid(Gather(Rows(fetch, 0, numberOfPages)))
    ensures mangas == Values(Gather(Rows(fetch, 0, numberOfPages)))
  {
    var collection := Collection([], map[]);
    ghost var seen: seq<Option<Manga>> := [];
    pages := [];
    var page := 0;
    while page < numberOfPages
      invariant 0 <= page && (page <= numberOfPages || page == 0)
      invariant pages + Requested(fetch, page, numberOfPages) == Requested(fetch, 0, numberOfPages)
      invariant seen + Rows(fetch, page, numberOfPages) == Rows(fetch, 0, numberOfPages)
      invariant collection == Gather(seen)
      decreases numberOfPages - page
    {
      var rows := fetch(page);
      pages := pages + [page];
      if rows == [] {
        break;
      }
      collection := StoreRows(collection, seen, rows);
      seen := seen + rows;
      page := page + 1;
    }
    assert seen == Rows(fetch, 0, numberOfPages);
    GatherValid(seen);
    mangas := Values(collection);
  }

  /** The inner loop of `get_manga`: every kept row of one page stored in turn. */
  method StoreRows(collection: Collection, ghost seen: seq<Option<Manga>>, rows: seq<Option<Manga>>)
    returns (stored: Collection)
    requires collection == Gather(seen)
    ensures stored == Gather(seen + rows)
  {
    stored := collection;
    var i := 0;
    assert seen + rows[..i] == seen;
    while i < |rows|
      invariant 0 <= i <= |rows|
      invariant stored == Gather(seen + rows[..i])
    {
      var manga := rows[i];
      assert seen + rows[..i + 1] == (seen + rows[..i]) + [manga];
      GatherSnoc(seen + rows[..i], manga);
      if manga.Some? && manga.value.name != "Test" {
        stored := Put(stored, manga.value);
      }
      i := i + 1;
    }
    assert rows[..i] == rows;
  }

  // ---------------------------------------------------------------------------
  // The pages requested

  /**
   * The crawl asks for pages `p`, `p + 1`, … in turn, at most up to the
   * budget, goes on past a page only when it had rows, and stops short of
   * the budget only after a page without rows.
   */
  lemma {:induction false} RequestedShape(fetch: int -> seq<Option<Manga>>, p: int, n: int)
    ensures var r := Requested(fetch, p, n);
      (|r| <= if n > p then n - p else 0)
      && (forall i :: 0 <= i < |r| ==> r[i] == p + i)
      && (forall i :: 0 <= i < |r| - 1 ==> fetch(r[i]) != [])
      && (p < n ==> |r| >= 1)
      && (|r| < n - p ==> |r| >= 1 && fetch(r[|r| - 1]) == [])
    decreases n - p
  {
    if p < n && fetch(p) != [] {
      RequestedShape(fetch, p + 1, n);
    }
  }

  /** The rows gathered are the rows of the requested pages. */
  lemma {:induction false} RowsOfRequested(fetch: int -> seq<Option<Manga>>, p: int, n: int)
    ensures Rows(fetch, p, n) == FetchAll(fetch, Requested(fetch, p, n))
    decreases n - p
  {
    if p < n {
      if fetch(p) == [] {
        assert FetchAll(fetch, [p]) == fetch(p) + FetchAll(fetch, []);
      } else {
        RowsOfRequested(fetch, p + 1, n);
        assert ([p] + Requested(fetch, p + 1, n))[1..] == Requested(fetch, p + 1, n);
      }
    }
  }

  // ---------------------------------------------------------------------------
  // The collection

  /** The dictionary stays well formed, and every manga is stored under its own path. */
  lemma {:induction false} GatherValid(rows: seq<Option<Manga>>)
    ensures Valid(Gather(rows))
    ensures forall k :: k in Gather(rows).table ==> Gather(rows).table[k].path == k
  {
    if rows != [] {
      GatherValid(rows[..|rows| - 1]);
    }
  }

  /** A path is a key exactly when some kept row has that path. */
  lemma {:induction false} GatherKeys(rows: seq<Option<Manga>>, k: string)
    ensures k in Gather(rows).table <==> exists i :: 0 <= i < |rows| && Keep(rows[i]) && rows[i].value.path == k
  {
    if rows != [] {
      var init := rows[..|rows| - 1];
      GatherKeys(init, k);
      if exists i :: 0 <= i < |init| && Keep(init[i]) && init[i].value.path == k {
        var i :| 0 <= i < |init| && Keep(init[i]) && init[i].value.path == k;
        assert rows[i] == init[i];
      }
      if exists i :: 0 <= i < |rows| && Keep(rows[i]) && rows[i].value.path == k {
        var i :| 0 <= i < |rows| && Keep(rows[i]) && rows[i].value.path == k;
        if i < |init| {
          assert init[i] == rows[i];
        }
      }
    }
  }

  /** The manga stored under a path is the last kept row with that path. */
  lemma {:induction false} GatherLastWins(rows: seq<Option<Manga>>, i: int)
    requires 0 <= i < |rows| && Keep(rows[i])
    requires forall j :: i < j < |rows| && Keep(rows[j]) ==> rows[j].value.path != rows[i].value.path
    ensures rows[i].value.path in Gather(rows).table
    ensures Gather(rows).table[rows[i].value.path] == rows[i].value
  {
    if i < |rows| - 1 {
      var init := rows[..|rows| - 1];
      assert init[i] == rows[i];
      forall j | i < j < |init| && Keep(init[j]) ensures init[j].value.path != init[i].value.path {
        assert init[j] == rows[j];
      }
      GatherLastWins(init, i);
    }
  }

  /**
   * Keys keep the order of first appearance: wherever a later key occurs
   * among the kept rows, an earlier key has already occurred before it.
   */
  lemma {:induction false} GatherFirstSeenOrder(rows: seq<Option<Manga>>, a: int, b: int, j: int)
    requires 0 <= a < b < |Gather(rows).keys|
    requires 0 <= j < |rows| && Keep(rows[j]) && rows[j].value.path == Gather(rows).keys[b]
    ensures exists i :: 0 <= i < j && Keep(rows[i]) && rows[i].value.path == Gather(rows).keys[a]
  {
    var init := rows[..|rows| - 1];
    var c := Gather(init);
    GatherValid(init);
    if j == |rows| - 1 {
      if b < |c.keys| {
        // The key of row `j` was already present: it came from an earlier row.
        GatherKeys(init, c.keys[b]);
        var j' :| 0 <= j' < |init| && Keep(init[j']) && init[j'].value.path == c.keys[b];
        assert rows[j'] == init[j'];
        GatherFirstSeenOrder(init, a, b, j');
        var i :| 0 <= i < j' && Keep(init[i]) && init[i].value.path == c.keys[a];
        assert rows[i] == init[i];
      } else {
        // Row `j` added the last key; every older key occurs in an earlier row.
        assert Gather(rows).keys[a] == c.keys[a];
        GatherKeys(init, c.keys[a]);
        var i :| 0 <= i < |init| && Keep(init[i]) && init[i].value.path == c.keys[a];
        assert rows[i] == init[i];
      }
    } else {
      assert init[j] == rows[j];
      assert Gather(rows).keys[..|c.keys|] == c.keys;
      GatherKeys(init, Gather(rows).keys[b]);
      assert Gather(rows).keys[b] in c.table;
      assert b < |c.keys|;
      GatherFirstSeenOrder(init, a, b, j);
      var i :| 0 <= i < j && Keep(init[i]) && init[i].value.path == c.keys[a];
      assert rows[i] == init[i];
    }
  }

  /**
   * What the crawl hands out: each manga once (distinct paths), never the
   * test entry, and each one the last row seen for its path.
   */
  lemma {:induction false} ValuesOfGather(rows: seq<Option<Manga>>)
    ensures Valid(Gather(rows))
    ensures var ms := Values(Gather(rows));
      (forall i, j :: 0 <= i < j < |ms| ==> ms[i].path != ms[j].path)
      && (forall i :: 0 <= i < |ms| ==> ms[i].name != "Test")
      && (forall i :: 0 <= i < |ms| ==> exists j :: LastOf(rows, j, ms[i].path) && rows[j] == Some(ms[i]))
  {
    GatherValid(rows);
    var c := Gather(rows);
    var ms := Values(c);
    forall i | 0 <= i < |ms|
      ensures ms[i].name != "Test"
      ensures exists j :: LastOf(rows, j, ms[i].path) && rows[j] == Some(ms[i])
    {
      var k := c.keys[i];
      GatherKeys(rows, k);
      LastKept(rows, k);
      var j :| LastOf(rows, j, k);
      GatherLastWins(rows, j);
    }
  }

  /** Row `j` is the last kept row whose path is `k`. */
  predicate LastOf(rows: seq<Option<Manga>>, j: int, k: string) {
    0 <= j < |rows| && Keep(rows[j]) && rows[j].value.path == k
    && forall l :: j < l < |rows| && Keep(rows[l]) ==> rows[l].value.path != k
  }

  /** Among the kept rows with a given path there is a last one. */
  lemma {:induction false} LastKept(rows: seq<Option<Manga>>, k: string)
    requires exists i :: 0 <= i < |rows| && Keep(rows[i]) && rows[i].value.path == k
    ensures exists j :: LastOf(rows, j, k)
  {
    var last := |rows| - 1;
    if Keep(rows[last]) && rows[last].value.path == k {
      assert LastOf(rows, last, k);
    } else {
      var init := rows[..last];
      var i :| 0 <= i < |rows| && Keep(rows[i]) && rows[i].value.path == k;
      assert init[i] == rows[i];
      LastKept(init, k);
      var j :| LastOf(init, j, k);
      assert rows[j] == init[j];
      forall l | j < l < |rows| && Keep(rows[l]) ensures rows[l].value.path != k {
        if l < last {
          assert init[l] == rows[l];
        }
      }
      assert LastOf(rows, j, k);
    }
  }
}
