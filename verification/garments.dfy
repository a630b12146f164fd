/** Clothing items ("prendas") as the generator sees them, the inventory
    query that fetches them, and the per-style, per-category selections the
    rest of the model is specified with. */
module Garments {
  import opened Basics

  /** Category ids of the catalogue: 1 top (superior), 2 bottom (inferior),
      3 shoes (zapatos), 4 outerwear (exterior), 5 one-piece (monopieza). */
  const Superior: int := 1
  const Inferior: int := 2
  const Zapatos: int := 3
  const Exterior: int := 4
  const Monopieza: int := 5

  /** One inventory row: id, owner, style, category id, primary colour name
      (absent when the row has no colour) and the active flag. */
  datatype Item = Item(id: int, owner: int, estilo: string, categoria: int,
                       color: Option<string>, status: bool)

  /** The items of style `s` and category `c`, in inventory order. */
  function Select(items: seq<Item>, s: string, c: int): (r: seq<Item>)
    ensures |r| <= |items|
    ensures forall x :: x in r <==> x in items && x.estilo == s && x.categoria == c
    decreases |items|
  {
    if |items| == 0 then []
    else
      var last := items[|items| - 1];
      Select(items[..|items| - 1], s, c) + (if last.estilo == s && last.categoria == c then [last] else [])
  }

  /** Some item has style `s` and category `c`. */
  predicate Has(items: seq<Item>, s: string, c: int) {
    exists i :: 0 <= i < |items| && items[i].estilo == s && items[i].categoria == c
  }

  lemma SelectNonEmpty(items: seq<Item>, s: string, c: int)
    ensures |Select(items, s, c)| > 0 <==> Has(items, s, c)
  {
    var r := Select(items, s, c);
    if |r| > 0 {
      assert r[0] in items;
    }
    if Has(items, s, c) {
      var i :| 0 <= i < |items| && items[i].estilo == s && items[i].categoria == c;
      assert items[i] in r;
    }
  }

  /** The number of items of category `c`, the `contarPrendas` helper. */
  function CountCat(items: seq<Item>, c: int): (n: nat)
    ensures n <= |items|
    ensures n > 0 <==> exists i :: 0 <= i < |items| && items[i].categoria == c
    decreases |items|
  {
    if |items| == 0 then 0
    else
      var rest := items[..|items| - 1];
      assert forall i :: 0 <= i < |rest| ==> rest[i] == items[i];
      CountCat(rest, c) + (if items[|items| - 1].categoria == c then 1 else 0)
  }

  // ---------------------------------------------------------------- ORDER BY p.id_categoria

  /** Categories never decrease along the list. */
  predicate SortedByCategory(s: seq<Item>) {
    forall i, j :: 0 <= i < j < |s| ==> s[i].categoria <= s[j].categoria
  }

  /** The items of category `c`, as a filter. */
  function InCategory(c: int): Item -> bool {
    (x: Item) => x.categoria == c
  }

  /** Insert `x` after every item of a category up to its own. */
  function InsertByCategory(s: seq<Item>, x: Item): (r: seq<Item>)
    requires SortedByCategory(s)
    ensures SortedByCategory(r)
    ensures |r| == |s| + 1
    ensures forall y :: y in r <==> y in s || y == x
    decreases |s|
  {
    if |s| == 0 || s[|s| - 1].categoria <= x.categoria then s + [x]
    else
      var last := s[|s| - 1];
      var r := InsertByCategory(s[..|s| - 1], x);
      assert forall y :: y in s <==> y in s[..|s| - 1] || y == last;
      assert forall i :: 0 <= i < |r| ==> r[i].categoria <= last.categoria by {
        forall i | 0 <= i < |r| ensures r[i].categoria <= last.categoria {
          assert r[i] in r;
        }
      }
      r + [last]
  }

  /** `ORDER BY p.id_categoria` on the rows the query selects: sorted by
      category, rows of one category in table order. */
  function OrderByCategory(s: seq<Item>): (r: seq<Item>)
    ensures SortedByCategory(r)
    ensures |r| == |s|
    ensures forall y :: y in r <==> y in s
    decreases |s|
  {
    if |s| == 0 then []
    else
      assert forall y :: y in s <==> y in s[..|s| - 1] || y == s[|s| - 1];
      InsertByCategory(OrderByCategory(s[..|s| - 1]), s[|s| - 1])
  }

  /** Inserting adds `x` at the end of its own category and moves no other
      item within its category. */
  lemma {:induction false} InsertKeepsCategoryOrder(s: seq<Item>, x: Item, c: int)
    requires SortedByCategory(s)
    ensures Filter(InsertByCategory(s, x), InCategory(c))
            == Filter(s, InCategory(c)) + (if x.categoria == c then [x] else [])
    decreases |s|
  {
    var k := InCategory(c);
    if |s| == 0 || s[|s| - 1].categoria <= x.categoria {
      assert InsertByCategory(s, x) == s + [x];
      FilterAppend(s, [x], k);
      FilterOne(x, k);
    } else {
      var s' := s[..|s| - 1];
      var last := s[|s| - 1];
      InsertKeepsCategoryOrder(s', x, c);
      assert InsertByCategory(s, x) == InsertByCategory(s', x) + [last];
      FilterAppend(InsertByCategory(s', x), [last], k);
      FilterOne(last, k);
      FilterSnoc(s, k);
      Reorder(Filter(s', k), if x.categoria == c then [x] else [], if last.categoria == c then [last] else []);
    }
  }

  /** Two pieces of which one is empty can be appended in either order. */
  lemma Reorder(a: seq<Item>, b: seq<Item>, d: seq<Item>)
    requires b == [] || d == []
    ensures a + b + d == a + d + b
  {
    if b == [] {
      assert a + b == a && a + d + b == a + d;
    } else {
      assert a + b + d == a + b && a + d == a;
    }
  }

  lemma FilterSnoc(s: seq<Item>, k: Item -> bool)
    requires |s| > 0
    ensures Filter(s, k) == Filter(s[..|s| - 1], k) + (if k(s[|s| - 1]) then [s[|s| - 1]] else [])
  {
  }

  lemma FilterOne(x: Item, k: Item -> bool)
    ensures Filter([x], k) == if k(x) then [x] else []
  {
    assert [x][..0] == [];
  }

  /** The sort is stable: each category's items keep their table order. */
  lemma {:induction false} OrderKeepsCategoryOrder(s: seq<Item>, c: int)
    ensures Filter(OrderByCategory(s), InCategory(c)) == Filter(s, InCategory(c))
    decreases |s|
  {
    if |s| > 0 {
      var s' := s[..|s| - 1];
      OrderKeepsCategoryOrder(s', c);
      InsertKeepsCategoryOrder(OrderByCategory(s'), s[|s| - 1], c);
      assert [s[|s| - 1]][..0] == [];
    }
  }

  /** A list already ordered by category is returned as it is. */
  lemma {:induction false} OrderedUnchanged(s: seq<Item>)
    requires SortedByCategory(s)
    ensures OrderByCategory(s) == s
    decreases |s|
  {
    if |s| > 0 {
      OrderedUnchanged(s[..|s| - 1]);
      SplitLast(s);
    }
  }

  // ---------------------------------------------------------------- the inventory query

  /** The inventory query (`getByCategories`, or `getByCategoriesAndStyle`
      when a style is given): the owner's items, restricted to the style when
      one is given, ordered by category. The query joins the colour table,
      so an item without a colour is not returned; it does NOT filter on the
      active flag. Rows of one category come back in table order. */
  function Fetch(table: seq<Item>, user: int, style: Option<string>): (r: seq<Item>)
    ensures forall x :: x in r <==> x in table && x.owner == user && x.color.Some?
                                    && (style.Some? ==> x.estilo == style.value)
    ensures SortedByCategory(r)
  {
    OrderByCategory(Filter(table, (x: Item) => x.owner == user && x.color.Some? && (style.Some? ==> x.estilo == style.value)))
  }

  /** Inactive items take part in generation: the query keeps an owner's
      inactive item exactly as it keeps an active one. */
  lemma FetchIgnoresStatus(table: seq<Item>, user: int, style: Option<string>, x: Item)
    requires x in table && x.owner == user && x.color.Some? && !x.status
    requires style.None? || style.value == x.estilo
    ensures x in Fetch(table, user, style)
  {
  }

  /** Within each category the query returns the selected rows in table
      order. */
  lemma FetchCategoryOrder(table: seq<Item>, user: int, style: Option<string>, c: int)
    ensures Filter(Fetch(table, user, style), InCategory(c))
            == Filter(Filter(table, (x: Item) => x.owner == user && x.color.Some? && (style.Some? ==> x.estilo == style.value)),
                      InCategory(c))
  {
    OrderKeepsCategoryOrder(Filter(table, (x: Item) => x.owner == user && x.color.Some? && (style.Some? ==> x.estilo == style.value)), c);
  }

  /** When every row belongs to the user, has a colour and has the
      requested style, and the table is already ordered by category, the
      query returns the table as it is. */
  lemma FetchEverything(table: seq<Item>, user: int, style: Option<string>)
    requires forall i :: 0 <= i < |table| ==>
      table[i].owner == user && table[i].color.Some? && (style.Some? ==> table[i].estilo == style.value)
    requires SortedByCategory(table)
    ensures Fetch(table, user, style) == table
  {
    FilterAll(table, (x: Item) => x.owner == user && x.color.Some? && (style.Some? ==> x.estilo == style.value));
    OrderedUnchanged(table);
  }
}
