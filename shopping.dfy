/**
 * The shopping list download: the line items of the recipes in a user's
 * cart, joined with their ingredient and summed per (name, unit); then the
 * rendering of those groups as one `name (unit) - total` line each, keyed by
 * ingredient name.
 */
module ShoppingList {
  import opened Tables
  import opened Strings
  import opened Models

  /** One row of the join: an ingredient's name, its unit and a line item's amount. */
  datatype Row = Row(name: string, unit: string, amount: nat)

  /** One group of the aggregation: `ingredient__name`, `ingredient__measurement_unit`, `total_amount`. */
  datatype Group = Group(name: string, unit: string, total: nat)

  function Repeat(row: Row, n: nat): (r: seq<Row>)
    ensures |r| == n && forall k :: 0 <= k < n ==> r[k] == row
  {
    if n == 0 then [] else [row] + Repeat(row, n - 1)
  }

  /**
   * The rows of `RecipeIngredient` filtered by `recipe__carts__user`: each
   * line item of a recipe in the user's cart, once per matching cart row
   * (the join multiplies), with its ingredient's name and unit.
   */
  function JoinRows(items: seq<RecipeIngredient>, carts: seq<Membership>,
                    ingredients: map<IngredientId, Ingredient>, user: UserId): (r: seq<Row>)
    ensures forall row :: row in r ==>
              exists li :: (li in items && Membership(user, li.recipe) in carts
                            && li.ingredient in ingredients && row.amount == li.amount
                            && row.name == ingredients[li.ingredient].name
                            && row.unit == ingredients[li.ingredient].measurementUnit)
  {
    if items == [] then []
    else
      var li := items[0];
      var here := if li.ingredient in ingredients
        then Repeat(Row(ingredients[li.ingredient].name, ingredients[li.ingredient].measurementUnit, li.amount),
                    Count(carts, Membership(user, li.recipe)))
        else [];
      here + JoinRows(items[1..], carts, ingredients, user)
  }

  /** The rows of the line items whose recipe is in `ids`, one each: a reference for the join. */
  function RowsOfRecipes(items: seq<RecipeIngredient>, ids: set<RecipeId>,
                         ingredients: map<IngredientId, Ingredient>): seq<Row>
  {
    if items == [] then []
    else
      var li := items[0];
      (if li.recipe in ids && li.ingredient in ingredients
       then [Row(ingredients[li.ingredient].name, ingredients[li.ingredient].measurementUnit, li.amount)]
       else [])
      + RowsOfRecipes(items[1..], ids, ingredients)
  }

  /**
   * When a user has each recipe in the cart at most once, the join yields
   * each line item of the cart's recipes exactly once.
   */
  lemma {:induction false} JoinRowsWithoutDuplicates(items: seq<RecipeIngredient>, carts: seq<Membership>,
                                                     ingredients: map<IngredientId, Ingredient>, user: UserId)
    requires NoDuplicates(carts)
    ensures JoinRows(items, carts, ingredients, user)
            == RowsOfRecipes(items, set m | m in carts && m.user == user :: m.recipe, ingredients)
  {
    if items != [] {
      var li := items[0];
      var ids := set m | m in carts && m.user == user :: m.recipe;
      JoinRowsWithoutDuplicates(items[1..], carts, ingredients, user);
      CountNoDuplicates(carts, Membership(user, li.recipe));
      assert li.recipe in ids <==> Membership(user, li.recipe) in carts;
    }
  }

  /** The spec of `Sum('amount')` for one group: the amounts of the rows with that name and unit. */
  function Total(rows: seq<Row>, name: string, unit: string): nat
  {
    if rows == [] then 0
    else
      var row := Last(rows);
      Total(rows[..|rows| - 1], name, unit) + (if row.name == name && row.unit == unit then row.amount else 0)
  }

  /** No two groups share the same (name, unit). */
  predicate DistinctKeys(groups: seq<Group>) {
    forall i, j :: 0 <= i < j < |groups| ==>
      groups[i].name != groups[j].name || groups[i].unit != groups[j].unit
  }

  predicate HasKey(groups: seq<Group>, name: string, unit: string) {
    exists i :: 0 <= i < |groups| && groups[i].name == name && groups[i].unit == unit
  }

  /** The position of the group with this name and unit, or `|groups|` when there is none. */
  function KeyIndex(groups: seq<Group>, name: string, unit: string): (k: nat)
    ensures k <= |groups|
    ensures k < |groups| ==> groups[k].name == name && groups[k].unit == unit
    ensures forall i :: 0 <= i < k ==> groups[i].name != name || groups[i].unit != unit
  {
    if groups == [] then 0
    else if groups[0].name == name && groups[0].unit == unit then 0
    else 1 + KeyIndex(groups[1..], name, unit)
  }

  /** Adds a row into its group, opening a new group at the end when there is none. */
  function AddRow(groups: seq<Group>, row: Row): seq<Group>
  {
    var k := KeyIndex(groups, row.name, row.unit);
    if k < |groups| then groups[k := groups[k].(total := groups[k].total + row.amount)]
    else groups + [Group(row.name, row.unit, row.amount)]
  }

  /**
   * `.values('ingredient__name', 'ingredient__measurement_unit')
   * .annotate(total_amount=Sum('amount'))`: one group per (name, unit), in
   * the order the keys are first seen.
   */
  function Aggregate(rows: seq<Row>): seq<Group>
  {
    if rows == [] then [] else AddRow(Aggregate(rows[..|rows| - 1]), Last(rows))
  }

  /** Some row has this name and unit. */
  predicate KeyIn(rows: seq<Row>, name: string, unit: string) {
    exists k :: 0 <= k < |rows| && rows[k].name == name && rows[k].unit == unit
  }

  lemma {:induction false} TotalAbsent(rows: seq<Row>, name: string, unit: string)
    requires !KeyIn(rows, name, unit)
    ensures Total(rows, name, unit) == 0
  {
    if rows != [] {
      var prev := rows[..|rows| - 1];
      assert !KeyIn(prev, name, unit) by {
        forall k | 0 <= k < |prev| ensures prev[k].name != name || prev[k].unit != unit {
          assert prev[k] == rows[k];
        }
      }
      TotalAbsent(prev, name, unit);
    }
  }

  /** What `AddRow` does to the keys: each keeps its place, and the row's key is added when new. */
  lemma AddRowKeys(g0: seq<Group>, row: Row)
    requires DistinctKeys(g0)
    ensures var g := AddRow(g0, row);
      && DistinctKeys(g)
      && |g0| <= |g|
      && (forall i :: 0 <= i < |g0| ==> g[i].name == g0[i].name && g[i].unit == g0[i].unit)
      && (forall n, u :: HasKey(g, n, u) <==> HasKey(g0, n, u) || (n == row.name && u == row.unit))
  {
    var k := KeyIndex(g0, row.name, row.unit);
    var g := AddRow(g0, row);
    forall n, u ensures HasKey(g, n, u) <==> HasKey(g0, n, u) || (n == row.name && u == row.unit) {
      if HasKey(g, n, u) {
        var i :| 0 <= i < |g| && g[i].name == n && g[i].unit == u;
        if i < |g0| {
          assert g0[i].name == n && g0[i].unit == u;
        }
      }
      if HasKey(g0, n, u) {
        var i :| 0 <= i < |g0| && g0[i].name == n && g0[i].unit == u;
        assert g[i].name == n && g[i].unit == u;
      }
      if n == row.name && u == row.unit {
        if k < |g0| {
          assert g[k].name == n && g[k].unit == u;
        } else {
          assert g[|g0|].name == n && g[|g0|].unit == u;
        }
      }
    }
  }

  /** The keys of the rows are those of all rows but the last, and the last one's. */
  lemma KeyInSnoc(rows: seq<Row>)
    requires rows != []
    ensures forall n, u :: KeyIn(rows, n, u) <==>
              KeyIn(rows[..|rows| - 1], n, u) || (n == Last(rows).name && u == Last(rows).unit)
  {
    var prev := rows[..|rows| - 1];
    forall n, u ensures KeyIn(rows, n, u) <==> KeyIn(prev, n, u) || (n == Last(rows).name && u == Last(rows).unit) {
      if KeyIn(prev, n, u) {
        var j :| 0 <= j < |prev| && prev[j].name == n && prev[j].unit == u;
        assert rows[j] == prev[j];
      }
      if KeyIn(rows, n, u) {
        var j :| 0 <= j < |rows| && rows[j].name == n && rows[j].unit == u;
        if j < |prev| {
          assert prev[j] == rows[j];
        }
      }
    }
  }

  /**
   * The aggregation is exact: its groups have distinct keys, there is a
   * group for a (name, unit) exactly when some row has it, and every group's
   * total is the sum of the amounts of the rows with its key.
   */
  lemma {:induction false} AggregateSums(rows: seq<Row>)
    ensures var g := Aggregate(rows);
      && DistinctKeys(g)
      && (forall n, u :: HasKey(g, n, u) <==> KeyIn(rows, n, u))
      && (forall i :: 0 <= i < |g| ==> g[i].total == Total(rows, g[i].name, g[i].unit))
  {
    if rows != [] {
      var prev := rows[..|rows| - 1];
      var row := Last(rows);
      var g0 := Aggregate(prev);
      var g := Aggregate(rows);
      AggregateSums(prev);
      assert g == AddRow(g0, row);
      AddRowKeys(g0, row);
      KeyInSnoc(rows);
      forall i | 0 <= i < |g| ensures g[i].total == Total(rows, g[i].name, g[i].unit) {
        if i >= |g0| {
          assert !HasKey(g0, row.name, row.unit);
          TotalAbsent(prev, row.name, row.unit);
        }
      }
    }
  }

  /**
   * With each recipe at most once in the cart, every group of the download
   * sums exactly the line items of the cart's recipes that have its key.
   */
  lemma CartGroupsExact(items: seq<RecipeIngredient>, carts: seq<Membership>,
                        ingredients: map<IngredientId, Ingredient>, user: UserId)
    requires NoDuplicates(carts)
    ensures var rows := RowsOfRecipes(items, set m | m in carts && m.user == user :: m.recipe, ingredients);
      var g := Aggregate(JoinRows(items, carts, ingredients, user));
      && DistinctKeys(g)
      && (forall n, u :: HasKey(g, n, u) <==> KeyIn(rows, n, u))
      && (forall i :: 0 <= i < |g| ==> g[i].total == Total(rows, g[i].name, g[i].unit))
  {
    JoinRowsWithoutDuplicates(items, carts, ingredients, user);
    AggregateSums(JoinRows(items, carts, ingredients, user));
  }

  // ---------------------------------------------------------------- rendering

  /** The position of the entry with this name, or `|d|` when there is none. */
  function NameIndex(d: seq<Group>, name: string): (k: nat)
    ensures k <= |d|
    ensures k < |d| ==> d[k].name == name
    ensures forall i :: 0 <= i < k ==> d[i].name != name
  {
    if d == [] then 0
    else if d[0].name == name then 0
    else 1 + NameIndex(d[1..], name)
  }

  /**
   * `ingredients_dict[name] = ...`: an existing key keeps its place and
   * takes the new value, a new key goes at the end.
   */
  function Put(d: seq<Group>, g: Group): seq<Group>
  {
    var k := NameIndex(d, g.name);
    if k < |d| then d[k := g] else d + [g]
  }

  /** The dict comprehension of `create_shopping_cart_response`, keyed by name only. */
  function Collapse(groups: seq<Group>): seq<Group>
  {
    if groups == [] then [] else Put(Collapse(groups[..|groups| - 1]), Last(groups))
  }

  predicate DistinctNames(d: seq<Group>) {
    forall i, j :: 0 <= i < j < |d| ==> d[i].name != d[j].name
  }

  /** `groups[j]` is the last group named `name`. */
  predicate LastNamed(groups: seq<Group>, j: int, name: string) {
    0 <= j < |groups| && groups[j].name == name
    && forall k :: j < k < |groups| ==> groups[k].name != name
  }

  /** What `Put` changes: the entry at the key's position, or a new last entry. */
  lemma PutSpec(d: seq<Group>, g: Group)
    ensures var r, k := Put(d, g), NameIndex(d, g.name);
      && |r| == (if k < |d| then |d| else |d| + 1)
      && r[k] == g
      && forall i :: 0 <= i < |d| && i != k ==> r[i] == d[i]
  {
  }

  /** The dict holds each name once and no more entries than there are groups. */
  lemma {:induction false} CollapseDistinctNames(groups: seq<Group>)
    ensures DistinctNames(Collapse(groups)) && |Collapse(groups)| <= |groups|
  {
    if groups != [] {
      var prev := groups[..|groups| - 1];
      var g := Last(groups);
      var d0 := Collapse(prev);
      CollapseDistinctNames(prev);
      PutSpec(d0, g);
    }
  }

  predicate NameIn(d: seq<Group>, name: string) {
    exists i :: 0 <= i < |d| && d[i].name == name
  }

  /** Every group's name has an entry in the dict. */
  lemma {:induction false} CollapseCovers(groups: seq<Group>)
    ensures forall j :: 0 <= j < |groups| ==> NameIn(Collapse(groups), groups[j].name)
  {
    if groups != [] {
      var prev := groups[..|groups| - 1];
      var g := Last(groups);
      var d0 := Collapse(prev);
      var d := Collapse(groups);
      CollapseCovers(prev);
      assert d == Put(d0, g);
      PutSpec(d0, g);
      var k := NameIndex(d0, g.name);
      forall j | 0 <= j < |groups| ensures NameIn(d, groups[j].name) {
        if j < |prev| {
          assert prev[j] == groups[j];
          var i :| 0 <= i < |d0| && d0[i].name == prev[j].name;
          assert d[i].name == groups[j].name;
        } else {
          assert d[k].name == groups[j].name;
        }
      }
    }
  }

  /** Each entry of the dict is the last group that has its name. */
  lemma {:induction false} CollapseLastWins(groups: seq<Group>)
    ensures var d := Collapse(groups);
      forall i :: 0 <= i < |d| ==> exists j :: LastNamed(groups, j, d[i].name) && d[i] == groups[j]
  {
    if groups != [] {
      var prev := groups[..|groups| - 1];
      var g := Last(groups);
      var d0 := Collapse(prev);
      var d := Collapse(groups);
      CollapseLastWins(prev);
      CollapseDistinctNames(prev);
      assert d == Put(d0, g);
      PutSpec(d0, g);
      var k := NameIndex(d0, g.name);
      forall i | 0 <= i < |d| ensures exists j :: LastNamed(groups, j, d[i].name) && d[i] == groups[j] {
        if d[i].name == g.name {
          assert LastNamed(groups, |groups| - 1, d[i].name);
        } else {
          assert i != k && i < |d0| && d[i] == d0[i];
          var j :| LastNamed(prev, j, d0[i].name) && d0[i] == prev[j];
          assert groups[j] == prev[j];
          assert forall m :: j < m < |prev| ==> groups[m] == prev[m];
          assert LastNamed(groups, j, d[i].name);
        }
      }
    }
  }

  /** When no two groups share a name, the dict keeps every group in order. */
  lemma {:induction false} CollapseDistinct(groups: seq<Group>)
    requires DistinctNames(groups)
    ensures Collapse(groups) == groups
  {
    if groups != [] {
      var prev := groups[..|groups| - 1];
      CollapseDistinct(prev);
      assert NameIndex(prev, Last(groups).name) == |prev|;
      assert prev + [Last(groups)] == groups;
    }
  }

  /**
   * Two groups that share a name but not a unit (the aggregation keeps them
   * apart) end up as one line: the list has fewer lines than groups.
   */
  lemma {:induction false} CollapseShorter(groups: seq<Group>, i: int, j: int)
    requires 0 <= i < j < |groups| && groups[i].name == groups[j].name
    ensures |Collapse(groups)| < |groups|
  {
    var prev := groups[..|groups| - 1];
    CollapseDistinctNames(prev);
    CollapseCovers(prev);
    if j < |groups| - 1 {
      assert prev[i] == groups[i] && prev[j] == groups[j];
      CollapseShorter(prev, i, j);
    } else {
      assert prev[i] == groups[i];
      var d0 := Collapse(prev);
      var x :| 0 <= x < |d0| && d0[x].name == prev[i].name;
      assert NameIndex(d0, Last(groups).name) < |d0|;
    }
  }

  /** `'{} ({}) - {}'.format(name, measurement_unit, amount)`. */
  function Line(g: Group): string
  {
    g.name + " (" + g.unit + ") - " + NatToString(g.total)
  }

  function Lines(d: seq<Group>): (r: seq<string>)
    ensures |r| == |d| && forall i :: 0 <= i < |d| ==> r[i] == Line(d[i])
  {
    if d == [] then [] else Lines(d[..|d| - 1]) + [Line(Last(d))]
  }

  /** One more group into the dict: the dict of a longer prefix. */
  lemma CollapseStep(groups: seq<Group>, i: nat)
    requires i < |groups|
    ensures Collapse(groups[..i + 1]) == Put(Collapse(groups[..i]), groups[i])
  {
    assert groups[..i + 1][..i] == groups[..i];
  }

  /** One more entry formatted: the lines of a longer prefix of the dict. */
  lemma LinesStep(d: seq<Group>, j: nat)
    requires j < |d|
    ensures Lines(d[..j + 1]) == Lines(d[..j]) + [Line(d[j])]
  {
    assert d[..j + 1][..j] == d[..j];
  }

  /**
   * `create_shopping_cart_response`: the groups go into a dict keyed by
   * name, then each entry is formatted and the lines are joined with `\n`.
   */
  method CreateShoppingCartResponse(groups: seq<Group>) returns (text: string)
    ensures text == Join(Lines(Collapse(groups)), "\n")
  {
    var dict: seq<Group> := [];
    var i := 0;
    while i < |groups|
      invariant 0 <= i <= |groups|
      invariant dict == Collapse(groups[..i])
    {
      CollapseStep(groups, i);
      dict := Put(dict, groups[i]);
      i := i + 1;
    }
    assert groups[..i] == groups;
    var formatted: seq<string> := [];
    for j := 0 to |dict|
      invariant formatted == Lines(dict[..j])
    {
      LinesStep(dict, j);
      formatted := formatted + [Line(dict[j])];
    }
    assert dict[..|dict|] == dict;
    text := Join(formatted, "\n");
  }

  /** An empty cart downloads as an empty text. */
  lemma EmptyListIsEmptyText()
    ensures Join(Lines(Collapse([])), "\n") == ""
  {
  }

  /** The text ends in the last total's digits: no trailing newline. */
  lemma {:induction false} NoTrailingNewline(groups: seq<Group>)
    requires groups != []
    ensures var text := Join(Lines(Collapse(groups)), "\n");
      text != [] && IsDigit(text[|text| - 1])
  {
    var d := Collapse(groups);
    CollapseCovers(groups);
    assert d != [] by {
      assert NameIn(d, groups[0].name);
    }
    var lines := Lines(d);
    var last := Line(Last(d));
    var digits := NatToString(Last(d).total);
    assert IsDigit(digits[|digits| - 1]);
    if |lines| == 1 {
      assert Join(lines, "\n") == last;
    } else {
      JoinLast(lines, "\n");
    }
    assert Last(lines) == last;
  }

  lemma LineWithoutNewline(g: Group)
    requires '\n' !in g.name && '\n' !in g.unit
    ensures '\n' !in Line(g)
  {
    var digits := NatToString(g.total);
    assert forall k :: 0 <= k < |digits| ==> IsDigit(digits[k]);
  }

  lemma LinesWithoutNewline(groups: seq<Group>)
    requires forall k :: 0 <= k < |groups| ==> '\n' !in groups[k].name && '\n' !in groups[k].unit
    ensures forall i :: 0 <= i < |Collapse(groups)| ==> '\n' !in Lines(Collapse(groups))[i]
  {
    var d := Collapse(groups);
    CollapseLastWins(groups);
    forall i | 0 <= i < |d| ensures '\n' !in Lines(d)[i] {
      assert exists j :: LastNamed(groups, j, d[i].name) && d[i] == groups[j];
      var j :| LastNamed(groups, j, d[i].name) && d[i] == groups[j];
      LineWithoutNewline(groups[j]);
    }
  }

  /**
   * When no name or unit holds a newline, splitting the text at newlines
   * gives back one formatted line per dict entry.
   */
  lemma SplitLines(groups: seq<Group>)
    requires groups != []
    requires forall k :: 0 <= k < |groups| ==> '\n' !in groups[k].name && '\n' !in groups[k].unit
    ensures Split(Join(Lines(Collapse(groups)), "\n"), "\n") == Lines(Collapse(groups))
  {
    var d := Collapse(groups);
    CollapseCovers(groups);
    assert d != [] by {
      assert NameIn(d, groups[0].name);
    }
    var lines := Lines(d);
    LinesWithoutNewline(groups);
    SplitJoin(lines, '\n');
  }
}
