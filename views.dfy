/**
 * The write side of the API over the database tables: recipe creation and
 * update with their line items and tags, the short link given to a new
 * recipe, the cart and favorite toggles, following and unfollowing an
 * author, the subscription listing and the shopping list download.
 */
module Views {
  import opened Wrappers
  import opened Tables
  import opened Strings
  import opened Models
  import opened Serializers
  import opened ShortLinks
  import opened ShoppingList

  /** The HTTP statuses the endpoints answer with. */
  datatype Status = Ok | Created | NoContent | BadRequest | NotFound

  /** The two tables `manage_item` works on. */
  datatype ItemTable = CartTable | FavoriteTable

  datatype Verb = Post | Delete

  /** All amounts of a validated ingredient list are positive. */
  predicate AmountsPositive(items: seq<IngredientAmount>) {
    forall k :: 0 <= k < |items| ==> items[k].amount > 0
  }

  /** The line items `bulk_create` inserts for a recipe: one per requested ingredient, in order. */
  function NewRows(rid: RecipeId, items: seq<IngredientAmount>): (rows: seq<RecipeIngredient>)
    requires AmountsPositive(items)
    ensures |rows| == |items|
    ensures forall k :: 0 <= k < |items| ==>
              rows[k] == RecipeIngredient(rid, items[k].id, items[k].amount as nat)
  {
    if items == [] then []
    else NewRows(rid, items[..|items| - 1]) + [RecipeIngredient(rid, Last(items).id, Last(items).amount as nat)]
  }

  /** The line items of one recipe. */
  function LineItemsOf(items: seq<RecipeIngredient>, rid: RecipeId): (r: seq<RecipeIngredient>)
    ensures forall li :: li in r <==> li in items && li.recipe == rid
  {
    Filter(items, (li: RecipeIngredient) => li.recipe == rid)
  }

  /**
   * Replacing a recipe's line items leaves it exactly the new rows, and
   * every other recipe exactly the rows it had.
   */
  lemma ReplaceLineItems(items: seq<RecipeIngredient>, rid: RecipeId, input: seq<IngredientAmount>, other: RecipeId)
    requires AmountsPositive(input) && other != rid
    ensures LineItemsOf(LineItemsNotOf(items, rid) + NewRows(rid, input), rid) == NewRows(rid, input)
    ensures LineItemsOf(LineItemsNotOf(items, rid) + NewRows(rid, input), other) == LineItemsOf(items, other)
  {
    var kept := LineItemsNotOf(items, rid);
    var rows := NewRows(rid, input);
    FilterAppend(kept, rows, (li: RecipeIngredient) => li.recipe == rid);
    FilterNone(kept, (li: RecipeIngredient) => li.recipe == rid);
    FilterAll(rows, (li: RecipeIngredient) => li.recipe == rid);
    FilterAppend(kept, rows, (li: RecipeIngredient) => li.recipe == other);
    FilterNone(rows, (li: RecipeIngredient) => li.recipe == other);
    LineItemsOfKept(items, rid, other);
  }

  lemma {:induction false} LineItemsOfKept(items: seq<RecipeIngredient>, rid: RecipeId, other: RecipeId)
    requires other != rid
    ensures LineItemsOf(LineItemsNotOf(items, rid), other) == LineItemsOf(items, other)
  {
    if items != [] {
      LineItemsOfKept(items[1..], rid, other);
      assert LineItemsNotOf(items, rid)
             == (if items[0].recipe != rid then [items[0]] else []) + LineItemsNotOf(items[1..], rid);
      FilterAppend(if items[0].recipe != rid then [items[0]] else [], LineItemsNotOf(items[1..], rid),
                   (li: RecipeIngredient) => li.recipe == other);
    }
  }

  /**
   * Replacing the line items twice leaves only the second set: the table is
   * as if the first replacement never happened.
   */
  lemma ReplaceTwice(items: seq<RecipeIngredient>, rid: RecipeId, first: seq<IngredientAmount>, second: seq<IngredientAmount>)
    requires AmountsPositive(first) && AmountsPositive(second)
    ensures LineItemsNotOf(LineItemsNotOf(items, rid) + NewRows(rid, first), rid) + NewRows(rid, second)
            == LineItemsNotOf(items, rid) + NewRows(rid, second)
  {
    var p := (li: RecipeIngredient) => li.recipe != rid;
    var kept := LineItemsNotOf(items, rid);
    var rows := NewRows(rid, first);
    assert kept == Filter(items, p);
    FilterAppend(kept, rows, p);
    FilterIdempotent(items, p);
    FilterNone(rows, p);
    assert LineItemsNotOf(kept + rows, rid) == Filter(kept + rows, p) == kept;
  }

  /** The subscriptions other than the (user, author) pair: what `destroy` leaves. */
  function SubscriptionsNotBetween(subs: seq<Subscription>, user: UserId, author: UserId): (r: seq<Subscription>)
    ensures forall s :: s in r <==> s in subs && (s.user != user || s.author != author)
    ensures SubseqOf(r, subs)
  {
    FilterIsSubseq(subs, (s: Subscription) => s.user != user || s.author != author);
    Filter(subs, (s: Subscription) => s.user != user || s.author != author)
  }

  /** Subscription ids grow along the table: rows are appended with fresh, larger ids. */
  predicate IdsIncreasing(subs: seq<Subscription>) {
    forall i, j :: 0 <= i < j < |subs| ==> subs[i].id < subs[j].id
  }

  predicate IdsDecreasing(subs: seq<Subscription>) {
    forall i, j :: 0 <= i < j < |subs| ==> subs[i].id > subs[j].id
  }

  function Reverse<T>(s: seq<T>): (r: seq<T>)
    ensures |r| == |s| && forall k :: 0 <= k < |s| ==> r[k] == s[|s| - 1 - k]
  {
    if s == [] then [] else [Last(s)] + Reverse(s[..|s| - 1])
  }

  /**
   * `get_queryset` of the subscription views: the user's subscriptions,
   * newest (highest id) first.
   */
  function SubscriptionsOf(subs: seq<Subscription>, user: UserId): (r: seq<Subscription>)
    ensures forall s :: s in r <==> s in subs && s.user == user
  {
    var mine := Filter(subs, (s: Subscription) => s.user == user);
    var r := Reverse(mine);
    assert forall s :: s in r <==> s in mine by {
      forall s ensures s in r <==> s in mine {
        if s in mine {
          var k :| 0 <= k < |mine| && mine[k] == s;
          assert r[|mine| - 1 - k] == s;
        }
      }
    }
    r
  }

  lemma {:induction false} IncreasingSubseq(a: seq<Subscription>, b: seq<Subscription>)
    requires SubseqOf(a, b) && IdsIncreasing(b)
    ensures IdsIncreasing(a)
    decreases |b|
  {
    if a != [] {
      assert IdsIncreasing(b[1..]) by {
        forall i, j | 0 <= i < j < |b[1..]| ensures b[1..][i].id < b[1..][j].id {
          assert b[1..][i] == b[i + 1] && b[1..][j] == b[j + 1];
        }
      }
      if a[0] == b[0] {
        IncreasingSubseq(a[1..], b[1..]);
        SubseqElements(a[1..], b[1..]);
        forall i, j | 0 <= i < j < |a| ensures a[i].id < a[j].id {
          if i == 0 {
            assert a[j] == a[1..][j - 1];
            assert a[j] in b[1..];
            var k :| 0 <= k < |b[1..]| && b[1..][k] == a[j];
            assert b[1..][k] == b[k + 1];
          } else {
            assert a[i] == a[1..][i - 1] && a[j] == a[1..][j - 1];
          }
        }
      } else {
        IncreasingSubseq(a, b[1..]);
      }
    }
  }

  /** On a table with growing ids the listing is ordered by id, descending. */
  lemma SubscriptionsNewestFirst(subs: seq<Subscription>, user: UserId)
    requires IdsIncreasing(subs)
    ensures IdsDecreasing(SubscriptionsOf(subs, user))
  {
    var mine := Filter(subs, (s: Subscription) => s.user == user);
    FilterIsSubseq(subs, (s: Subscription) => s.user == user);
    IncreasingSubseq(mine, subs);
  }

  /** Some recipe has this link. */
  predicate LinkIn(recipes: map<RecipeId, Recipe>, link: string) {
    exists id :: id in recipes && recipes[id].link == link
  }

  /** Every link is empty or a short link that no other recipe has. */
  ghost predicate LinksWellFormed(recipes: map<RecipeId, Recipe>) {
    && (forall id :: id in recipes ==> recipes[id].link == "" || IsShortLink(recipes[id].link))
    && (forall a, b :: a in recipes && b in recipes && a != b && recipes[a].link != "" ==>
          recipes[a].link != recipes[b].link)
  }

  /**
   * The schema's constraints, plus what the endpoints keep: ids below
   * their counters and growing along the subscription table, no pair twice
   * in a toggle table, nobody following themselves, and every link empty
   * or a short link no other recipe has.
   */
  ghost predicate Consistent(db: Db, nextRecipeId: nat, nextSubscriptionId: nat) {
    && ValidDb(db)
    && (forall id :: id in db.recipes ==> id < nextRecipeId)
    && (forall s :: s in db.subscriptions ==> s.id < nextSubscriptionId)
    && IdsIncreasing(db.subscriptions)
    && NoDuplicates(db.carts) && NoDuplicates(db.favorites)
    && (forall s :: s in db.subscriptions ==> s.user != s.author)
    && LinksWellFormed(db.recipes)
  }

  /** The database after `_set_ingredients_and_tags` on recipe `id`. */
  function ReplaceItems(db: Db, id: RecipeId, items: seq<IngredientAmount>, tagIds: seq<TagId>): Db
    requires id in db.recipes && AmountsPositive(items)
  {
    db.(lineItems := LineItemsNotOf(db.lineItems, id) + NewRows(id, items),
        recipes := db.recipes[id := db.recipes[id].(tags := ToSet(tagIds))])
  }

  /** Replacing the line items by rows that each satisfy the schema keeps the invariant. */
  lemma LineItemsSwapKeepsConsistent(db: Db, nr: nat, ns: nat, rows: seq<RecipeIngredient>)
    requires Consistent(db, nr, ns)
    requires forall li :: li in rows ==> ValidLineItem(db, li)
    ensures Consistent(db.(lineItems := rows), nr, ns)
  {
    var d := db.(lineItems := rows);
    forall rid | rid in d.recipes ensures d.recipes[rid].id == rid && ValidRecipe(d, d.recipes[rid]) {
      assert ValidRecipe(db, db.recipes[rid]);
    }
    forall li | li in d.lineItems ensures ValidLineItem(d, li) {
      assert ValidLineItem(db, li);
    }
    forall m | m in d.carts ensures ValidMembership(d, m) {
      assert ValidMembership(db, m);
    }
    forall m | m in d.favorites ensures ValidMembership(d, m) {
      assert ValidMembership(db, m);
    }
  }

  lemma ReplaceItemsKeepsConsistent(db: Db, nr: nat, ns: nat, id: RecipeId, items: seq<IngredientAmount>, tagIds: seq<TagId>)
    requires Consistent(db, nr, ns) && id in db.recipes
    requires AmountsPositive(items) && forall k :: 0 <= k < |items| ==> items[k].id in db.ingredients
    requires forall k :: 0 <= k < |tagIds| ==> tagIds[k] in db.tags
    ensures Consistent(ReplaceItems(db, id, items, tagIds), nr, ns)
  {
    var r := db.recipes[id].(tags := ToSet(tagIds));
    assert ValidRecipe(db, db.recipes[id]);
    PutRecipeKeepsConsistent(db, nr, ns, r, nr);
    var mid := db.(recipes := db.recipes[id := r]);
    var rows := LineItemsNotOf(db.lineItems, id) + NewRows(id, items);
    forall li | li in rows ensures ValidLineItem(mid, li) {
      if li in NewRows(id, items) {
        var k :| 0 <= k < |NewRows(id, items)| && NewRows(id, items)[k] == li;
      } else {
        assert ValidLineItem(db, li);
      }
    }
    LineItemsSwapKeepsConsistent(mid, nr, ns, rows);
    assert mid.(lineItems := rows) == ReplaceItems(db, id, items, tagIds);
  }

  /** `link` is empty, or a short link that no recipe other than `r.id` has. */
  ghost predicate LinkOk(recipes: map<RecipeId, Recipe>, id: RecipeId, link: string) {
    link == "" || (IsShortLink(link) && forall x :: x in recipes && x != id ==> recipes[x].link != link)
  }

  /** Writing one recipe row (new or changed) that satisfies the schema keeps the invariant. */
  lemma PutRecipeKeepsConsistent(db: Db, nr: nat, ns: nat, r: Recipe, nr2: nat)
    requires Consistent(db, nr, ns) && nr <= nr2 && r.id < nr2
    requires ValidRecipe(db, r) && LinkOk(db.recipes, r.id, r.link)
    ensures Consistent(db.(recipes := db.recipes[r.id := r]), nr2, ns)
  {
    var d := db.(recipes := db.recipes[r.id := r]);
    assert d.users == db.users && d.tags == db.tags && d.ingredients == db.ingredients;
    assert d.lineItems == db.lineItems && d.subscriptions == db.subscriptions;
    assert d.carts == db.carts && d.favorites == db.favorites;
    forall rid | rid in d.recipes ensures d.recipes[rid].id == rid && ValidRecipe(d, d.recipes[rid]) {
      if rid != r.id {
        assert ValidRecipe(db, db.recipes[rid]);
      }
    }
    PutLinkKeepsWellFormed(db.recipes, r);
    forall li | li in d.lineItems ensures ValidLineItem(d, li) {
      assert ValidLineItem(db, li);
    }
    forall m | m in d.carts ensures ValidMembership(d, m) {
      assert ValidMembership(db, m);
    }
    forall m | m in d.favorites ensures ValidMembership(d, m) {
      assert ValidMembership(db, m);
    }
  }

  lemma PutLinkKeepsWellFormed(recipes: map<RecipeId, Recipe>, r: Recipe)
    requires LinksWellFormed(recipes) && LinkOk(recipes, r.id, r.link)
    ensures LinksWellFormed(recipes[r.id := r])
  {
  }

  /** The database with one of the toggle tables replaced. */
  function WithRows(db: Db, table: ItemTable, rows: seq<Membership>): Db {
    if table == CartTable then db.(carts := rows) else db.(favorites := rows)
  }

  function RowsOf(db: Db, table: ItemTable): seq<Membership> {
    if table == CartTable then db.carts else db.favorites
  }

  /** Replacing a toggle table by rows without repeats that each satisfy the schema keeps the invariant. */
  lemma RowsSwapKeepsConsistent(db: Db, nr: nat, ns: nat, table: ItemTable, rows: seq<Membership>)
    requires Consistent(db, nr, ns) && NoDuplicates(rows)
    requires forall m :: m in rows ==> ValidMembership(db, m)
    ensures Consistent(WithRows(db, table, rows), nr, ns)
  {
    var d := WithRows(db, table, rows);
    assert d.users == db.users && d.tags == db.tags && d.ingredients == db.ingredients;
    assert d.recipes == db.recipes && d.lineItems == db.lineItems && d.subscriptions == db.subscriptions;
    assert d.carts == (if table == CartTable then rows else db.carts);
    assert d.favorites == (if table == CartTable then db.favorites else rows);
    forall rid | rid in d.recipes ensures d.recipes[rid].id == rid && ValidRecipe(d, d.recipes[rid]) {
      assert ValidRecipe(db, db.recipes[rid]);
    }
    forall li | li in d.lineItems ensures ValidLineItem(d, li) {
      assert ValidLineItem(db, li);
    }
    forall m | m in d.carts ensures ValidMembership(d, m) {
      assert ValidMembership(db, m);
    }
    forall m | m in d.favorites ensures ValidMembership(d, m) {
      assert ValidMembership(db, m);
    }
  }

  /** Adding an absent pair over existing rows keeps the invariant. */
  lemma AddRowKeepsConsistent(db: Db, nr: nat, ns: nat, table: ItemTable, m: Membership)
    requires Consistent(db, nr, ns) && ValidMembership(db, m) && m !in RowsOf(db, table)
    ensures Consistent(WithRows(db, table, RowsOf(db, table) + [m]), nr, ns)
  {
    var rows := RowsOf(db, table);
    var r := rows + [m];
    assert NoDuplicates(rows);
    assert NoDuplicates(r) by {
      forall i, j | 0 <= i < j < |r| ensures r[i] != r[j] {
        if j == |rows| {
          assert r[i] == rows[i];
        }
      }
    }
    forall x | x in r ensures ValidMembership(db, x) {
      if x != m {
        assert x in rows;
      }
    }
    RowsSwapKeepsConsistent(db, nr, ns, table, r);
  }

  /** Deleting the rows equal to a pair keeps the invariant. */
  lemma RemoveRowKeepsConsistent(db: Db, nr: nat, ns: nat, table: ItemTable, m: Membership)
    requires Consistent(db, nr, ns)
    ensures Consistent(WithRows(db, table, Except(RowsOf(db, table), m)), nr, ns)
  {
    var rows := RowsOf(db, table);
    assert NoDuplicates(rows);
    ExceptKeepsNoDuplicates(rows, m);
    RowsSwapKeepsConsistent(db, nr, ns, table, Except(rows, m));
  }

  /** Appending a new subscription with the next id keeps the invariant. */
  lemma SubscribeKeepsConsistent(db: Db, nr: nat, ns: nat, user: UserId, author: UserId)
    requires Consistent(db, nr, ns) && user in db.users && author in db.users
    requires user != author && !Subscribed(db.subscriptions, user, author)
    ensures Consistent(db.(subscriptions := db.subscriptions + [Subscription(ns, user, author)]), nr, ns + 1)
  {
    var subs := db.subscriptions;
    var s := Subscription(ns, user, author);
    var r := subs + [s];
    assert s !in subs;
    assert NoDuplicates(r) by {
      forall i, j | 0 <= i < j < |r| ensures r[i] != r[j] {
        if j == |subs| {
          assert r[i] == subs[i];
        }
      }
    }
    assert IdsIncreasing(r) by {
      forall i, j | 0 <= i < j < |r| ensures r[i].id < r[j].id {
        if j == |subs| {
          assert r[i] in subs;
        }
      }
    }
  }

  /** Deleting the subscriptions of a pair keeps the invariant. */
  lemma UnsubscribeKeepsConsistent(db: Db, nr: nat, ns: nat, user: UserId, author: UserId)
    requires Consistent(db, nr, ns)
    ensures Consistent(db.(subscriptions := SubscriptionsNotBetween(db.subscriptions, user, author)), nr, ns)
  {
    var r := SubscriptionsNotBetween(db.subscriptions, user, author);
    FilterKeepsNoDuplicates(db.subscriptions, (s: Subscription) => s.user != user || s.author != author);
    IncreasingSubseq(r, db.subscriptions);
  }

  /** Following an author and unfollowing them again restores the table. */
  lemma SubscribeThenUnsubscribe(subs: seq<Subscription>, id: nat, user: UserId, author: UserId)
    requires !Subscribed(subs, user, author)
    ensures SubscriptionsNotBetween(subs + [Subscription(id, user, author)], user, author) == subs
  {
    FilterAppend(subs, [Subscription(id, user, author)], (s: Subscription) => s.user != user || s.author != author);
    FilterAll(subs, (s: Subscription) => s.user != user || s.author != author);
  }

  /**
   * A validated recipe request, as `is_valid()` accepts it against the
   * catalogs; `partial` for a PATCH.
   */
  predicate Accepted(data: RecipeData, ingredients: map<IngredientId, Ingredient>, tags: map<TagId, Tag>, partial: bool) {
    IsValid(data, ingredients, tags, partial).Success?
  }

  /**
   * What an accepted request guarantees to the write methods: ingredients
   * and tags present and known, positive amounts, a cooking time and an image.
   */
  predicate Writable(data: RecipeData, ingredients: map<IngredientId, Ingredient>, tags: map<TagId, Tag>) {
    && data.ingredients.Some? && AmountsPositive(data.ingredients.value)
    && (forall k :: 0 <= k < |data.ingredients.value| ==> data.ingredients.value[k].id in ingredients)
    && data.tags.Some? && (forall k :: 0 <= k < |data.tags.value| ==> data.tags.value[k] in tags)
    && CookingTimeOk(data) && ImageOk(data)
  }

  /** What a create request guarantees besides: the name and the text are given. */
  predicate Creatable(data: RecipeData, ingredients: map<IngredientId, Ingredient>, tags: map<TagId, Tag>) {
    Writable(data, ingredients, tags) && data.name.Some? && data.text.Some?
  }

  lemma AcceptedIsWritable(data: RecipeData, ingredients: map<IngredientId, Ingredient>, tags: map<TagId, Tag>, partial: bool)
    requires Accepted(data, ingredients, tags, partial)
    ensures Writable(data, ingredients, tags)
    ensures !partial ==> Creatable(data, ingredients, tags)
  {
  }

  /** Inserting a recipe with an empty link changes which non-empty links are taken in no way. */
  lemma LinkInAfterInsert(rs: map<RecipeId, Recipe>, r: Recipe, c: string)
    requires r.id !in rs && r.link == "" && c != ""
    ensures LinkIn(rs[r.id := r], c) <==> LinkIn(rs, c)
  {
    if LinkIn(rs, c) {
      var x :| x in rs && rs[x].link == c;
      assert rs[r.id := r][x] == rs[x];
    }
  }

  /** A new recipe row over existing users and tags satisfies the schema and takes no line item. */
  lemma NewRecipeFits(db: Db, nr: nat, ns: nat, user: UserId, data: RecipeData, now: int)
    requires Consistent(db, nr, ns) && user in db.users && Creatable(data, db.ingredients, db.tags)
    ensures nr !in db.recipes
    ensures ValidRecipe(db, NewRecipe(nr, user, data, now)) && LinkOk(db.recipes, nr, "")
    ensures forall li :: li in db.lineItems ==> li.recipe != nr
  {
    forall li | li in db.lineItems ensures li.recipe != nr {
      assert ValidLineItem(db, li);
    }
  }

  /** The row `Recipe.objects.create(**validated_data)` inserts: no tags yet, an empty link. */
  function NewRecipe(id: RecipeId, user: UserId, data: RecipeData, now: int): Recipe
    requires CookingTimeOk(data) && ImageOk(data) && data.name.Some? && data.text.Some?
  {
    Recipe(id, user, {}, data.name.value, data.image.value, data.text.value, data.cookingTime.value as nat, now, "")
  }

  /**
   * The recipe row after `super().update(instance, validated_data)`: each
   * given column takes its new value; a name or text left out of a partial
   * update keeps the stored one.
   */
  function EditedRecipe(r: Recipe, data: RecipeData): Recipe
    requires CookingTimeOk(data) && ImageOk(data)
  {
    r.(name := if data.name.Some? then data.name.value else r.name,
       image := data.image.value,
       text := if data.text.Some? then data.text.value else r.text,
       cookingTime := data.cookingTime.value as nat)
  }

  /**
   * The database after `RecipeSerializer.create` with the next id `id`: the
   * new row with the requested tags, and its line items appended.
   */
  function CreatedDb(db: Db, id: RecipeId, user: UserId, data: RecipeData, now: int): Db
    requires Creatable(data, db.ingredients, db.tags)
  {
    db.(recipes := db.recipes[id := NewRecipe(id, user, data, now).(tags := ToSet(data.tags.value))],
        lineItems := db.lineItems + NewRows(id, data.ingredients.value))
  }

  /**
   * Inserting the new row and then setting its line items and tags gives
   * the created database, and each step keeps the invariant.
   */
  lemma CreateKeepsConsistent(db: Db, nr: nat, ns: nat, user: UserId, data: RecipeData, now: int)
    requires Consistent(db, nr, ns) && user in db.users && Creatable(data, db.ingredients, db.tags)
    ensures nr !in db.recipes
    ensures var mid := db.(recipes := db.recipes[nr := NewRecipe(nr, user, data, now)]);
      && Consistent(mid, nr + 1, ns)
      && ReplaceItems(mid, nr, data.ingredients.value, data.tags.value) == CreatedDb(db, nr, user, data, now)
    ensures Consistent(CreatedDb(db, nr, user, data, now), nr + 1, ns)
  {
    NewRecipeFits(db, nr, ns, user, data, now);
    var r := NewRecipe(nr, user, data, now);
    PutRecipeKeepsConsistent(db, nr, ns, r, nr + 1);
    var mid := db.(recipes := db.recipes[nr := r]);
    FilterAll(db.lineItems, (li: RecipeIngredient) => li.recipe != nr);
    assert mid.recipes[nr := r.(tags := ToSet(data.tags.value))] == db.recipes[nr := r.(tags := ToSet(data.tags.value))];
    ReplaceItemsKeepsConsistent(mid, nr + 1, ns, nr, data.ingredients.value, data.tags.value);
  }

  /**
   * The database after `RecipeSerializer.update` of recipe `id`: its own
   * columns and tags take the new values and its line items are replaced.
   */
  function EditedDb(db: Db, id: RecipeId, data: RecipeData): Db
    requires id in db.recipes && Writable(data, db.ingredients, db.tags)
  {
    db.(recipes := db.recipes[id := EditedRecipe(db.recipes[id], data).(tags := ToSet(data.tags.value))],
        lineItems := LineItemsNotOf(db.lineItems, id) + NewRows(id, data.ingredients.value))
  }

  /**
   * What an update does to the rows of the recipes table: the edited recipe
   * keeps its id, author, link and creation time, takes every given
   * column and the requested tags, and a name or text a partial update
   * leaves out stays as stored; no other recipe changes.
   */
  lemma EditedDbColumns(db: Db, id: RecipeId, data: RecipeData)
    requires id in db.recipes && Writable(data, db.ingredients, db.tags)
    ensures var before := db.recipes[id];
      var after := EditedDb(db, id, data).recipes[id];
      && after.id == before.id && after.author == before.author
      && after.link == before.link && after.createdAt == before.createdAt
      && after.tags == ToSet(data.tags.value)
      && after.image == data.image.value && after.cookingTime == data.cookingTime.value
      && after.name == (if data.name.None? then before.name else data.name.value)
      && after.text == (if data.text.None? then before.text else data.text.value)
    ensures EditedDb(db, id, data).recipes.Keys == db.recipes.Keys
    ensures forall other :: other in db.recipes && other != id ==>
              EditedDb(db, id, data).recipes[other] == db.recipes[other]
  {
  }

  /** Updating the row and then replacing its line items and tags gives the edited database, keeping the invariant. */
  lemma EditKeepsConsistent(db: Db, nr: nat, ns: nat, id: RecipeId, data: RecipeData)
    requires Consistent(db, nr, ns) && id in db.recipes && Writable(data, db.ingredients, db.tags)
    ensures var mid := db.(recipes := db.recipes[id := EditedRecipe(db.recipes[id], data)]);
      && Consistent(mid, nr, ns)
      && ReplaceItems(mid, id, data.ingredients.value, data.tags.value) == EditedDb(db, id, data)
    ensures Consistent(EditedDb(db, id, data), nr, ns)
  {
    var r := EditedRecipe(db.recipes[id], data);
    assert ValidRecipe(db, db.recipes[id]);
    PutRecipeKeepsConsistent(db, nr, ns, r, nr);
    var mid := db.(recipes := db.recipes[id := r]);
    assert mid.recipes[id := r.(tags := ToSet(data.tags.value))] == db.recipes[id := r.(tags := ToSet(data.tags.value))];
    ReplaceItemsKeepsConsistent(mid, nr, ns, id, data.ingredients.value, data.tags.value);
  }

  /** The database with recipe `id` given `link`. */
  function WithLink(db: Db, id: RecipeId, link: string): Db
    requires id in db.recipes
  {
    db.(recipes := db.recipes[id := db.recipes[id].(link := link)])
  }

  /**
   * Creating a recipe and giving it a short link that no recipe had keeps
   * the invariant: the new link is the only one of its kind.
   */
  lemma PerformCreateKeepsConsistent(db: Db, nr: nat, ns: nat, user: UserId, data: RecipeData, now: int, link: string)
    requires Consistent(db, nr, ns) && user in db.users && Creatable(data, db.ingredients, db.tags)
    requires IsShortLink(link) && !LinkIn(db.recipes, link)
    ensures Consistent(WithLink(CreatedDb(db, nr, user, data, now), nr, link), nr + 1, ns)
  {
    CreateKeepsConsistent(db, nr, ns, user, data, now);
    var c := CreatedDb(db, nr, user, data, now);
    var r := c.recipes[nr].(link := link);
    assert ValidRecipe(c, c.recipes[nr]);
    forall x | x in c.recipes && x != nr ensures c.recipes[x].link != link {
      assert c.recipes[x] == db.recipes[x];
    }
    PutRecipeKeepsConsistent(c, nr + 1, ns, r, nr + 1);
  }

  /**
   * The generator handed to `bulk_create`: one line item per requested
   * ingredient of recipe `rid`, in request order.
   */
  method BuildRows(rid: RecipeId, items: seq<IngredientAmount>) returns (rows: seq<RecipeIngredient>)
    requires AmountsPositive(items)
    ensures rows == NewRows(rid, items)
  {
    rows := [];
    for k := 0 to |items|
      invariant rows == NewRows(rid, items[..k])
    {
      assert items[..k + 1][..k] == items[..k];
      rows := rows + [RecipeIngredient(rid, items[k].id, items[k].amount as nat)];
    }
    assert items[..|items|] == items;
  }

  /**
   * The database tables the endpoints read and write, with the id counters
   * of the two auto-increment keys the model creates.
   */
  class Store {
    var users: set<UserId>
    var tags: map<TagId, Tag>
    var ingredients: map<IngredientId, Ingredient>
    var recipes: map<RecipeId, Recipe>
    var lineItems: seq<RecipeIngredient>
    var subscriptions: seq<Subscription>
    var carts: seq<Membership>
    var favorites: seq<Membership>
    var nextRecipeId: nat
    var nextSubscriptionId: nat

    function Snapshot(): Db
      reads this
    {
      Db(users, tags, ingredients, recipes, lineItems, subscriptions, carts, favorites)
    }

    /** The rows of one of the two toggle tables. */
    function Rows(table: ItemTable): seq<Membership>
      reads this
    {
      if table == CartTable then carts else favorites
    }

    /** The invariant every endpoint keeps. */
    ghost predicate Valid()
      reads this
    {
      Consistent(Snapshot(), nextRecipeId, nextSubscriptionId)
    }

    /** An empty database over the given users and catalogs. */
    constructor(users: set<UserId>, tags: map<TagId, Tag>, ingredients: map<IngredientId, Ingredient>)
      requires ValidTags(tags)
      ensures Valid()
      ensures this.users == users && this.tags == tags && this.ingredients == ingredients
      ensures recipes == map[] && lineItems == [] && subscriptions == [] && carts == [] && favorites == []
    {
      this.users := users;
      this.tags := tags;
      this.ingredients := ingredients;
      recipes := map[];
      lineItems := [];
      subscriptions := [];
      carts := [];
      favorites := [];
      nextRecipeId := 0;
      nextSubscriptionId := 0;
    }

    /**
     * `generate_short_link` with the random draws given in order: the first
     * draw whose link no recipe has yet. `None` stands for a run of draws
     * that all collide, after which the source would keep drawing.
     */
    method GenerateShortLink(draws: seq<string>) returns (link: Option<string>)
      requires forall k :: 0 <= k < |draws| ==> IsDraw(draws[k])
      ensures link.Some? ==> IsShortLink(link.value) && !LinkIn(recipes, link.value)
      ensures link.Some? ==> exists k :: 0 <= k < |draws| && link.value == LinkPrefix + draws[k]
                                         && forall m :: 0 <= m < k ==> LinkIn(recipes, LinkPrefix + draws[m])
      ensures link.None? <==> forall k :: 0 <= k < |draws| ==> LinkIn(recipes, LinkPrefix + draws[k])
    {
      var k := 0;
      while k < |draws|
        invariant 0 <= k <= |draws|
        invariant forall m :: 0 <= m < k ==> LinkIn(recipes, LinkPrefix + draws[m])
      {
        var candidate := LinkPrefix + draws[k];
        if !LinkIn(recipes, candidate) {
          DrawnLinkIsShortLink(draws[k]);
          return Some(candidate);
        }
        k := k + 1;
      }
      return None;
    }

    /** `get_short_link`: 404 for an unknown recipe, else the URL or `None` for an empty link. */
    method GetShortLink(id: RecipeId) returns (status: Status, url: Option<string>)
      ensures status == NotFound <==> id !in recipes
      ensures status == NotFound ==> url.None?
      ensures id in recipes ==> status == Ok && url == ShortLinkUrl(recipes[id].link)
    {
      if id !in recipes {
        return NotFound, None;
      }
      status, url := Ok, ShortLinkUrl(recipes[id].link);
    }

    /**
     * `_set_ingredients_and_tags`: the recipe's old line items are deleted,
     * one row per requested ingredient is inserted and its tag set becomes
     * the requested tags; no other row changes.
     */
    method SetIngredientsAndTags(id: RecipeId, items: seq<IngredientAmount>, tagIds: seq<TagId>)
      requires id in recipes && AmountsPositive(items)
      modifies this
      ensures Snapshot() == ReplaceItems(old(Snapshot()), id, items, tagIds)
      ensures nextRecipeId == old(nextRecipeId) && nextSubscriptionId == old(nextSubscriptionId)
    {
      if exists li :: li in lineItems && li.recipe == id {
        lineItems := LineItemsNotOf(lineItems, id);
      } else {
        FilterAll(lineItems, (li: RecipeIngredient) => li.recipe != id);
      }
      var rows := BuildRows(id, items);
      lineItems := lineItems + rows;
      recipes := recipes[id := recipes[id].(tags := ToSet(tagIds))];
    }

    /**
     * `RecipeSerializer.create`: the recipe row is inserted with the next
     * id, then its line items and tags are set.
     */
    method CreateRecipe(user: UserId, data: RecipeData, now: int) returns (id: RecipeId)
      requires Valid() && user in users && Creatable(data, ingredients, tags)
      modifies this
      ensures id == old(nextRecipeId) && id !in old(recipes) && nextRecipeId == id + 1
      ensures Snapshot() == CreatedDb(old(Snapshot()), id, user, data, now)
      ensures nextSubscriptionId == old(nextSubscriptionId)
    {
      id := nextRecipeId;
      CreateKeepsConsistent(Snapshot(), nextRecipeId, nextSubscriptionId, user, data, now);
      recipes := recipes[id := NewRecipe(id, user, data, now)];
      nextRecipeId := nextRecipeId + 1;
      SetIngredientsAndTags(id, data.ingredients.value, data.tags.value);
    }

    /**
     * `RecipeSerializer.update`: the recipe's own columns take the new
     * values, then its line items and tags are replaced.
     */
    method UpdateRecipe(id: RecipeId, data: RecipeData)
      requires id in recipes && Writable(data, ingredients, tags)
      modifies this
      ensures Snapshot() == EditedDb(old(Snapshot()), id, data)
      ensures nextRecipeId == old(nextRecipeId) && nextSubscriptionId == old(nextSubscriptionId)
    {
      ghost var before := Snapshot();
      recipes := recipes[id := EditedRecipe(recipes[id], data)];
      SetIngredientsAndTags(id, data.ingredients.value, data.tags.value);
      assert recipes == before.recipes[id := EditedRecipe(before.recipes[id], data).(tags := ToSet(data.tags.value))];
    }

    /**
     * `perform_create`: the recipe is saved with the requesting user as its
     * author and then given a fresh short link. The draws are the random
     * outcomes up to the first one that is free, so at least one is.
     */
    method PerformCreate(user: UserId, data: RecipeData, now: int, draws: seq<string>) returns (id: RecipeId)
      requires Valid() && user in users && Creatable(data, ingredients, tags)
      requires forall k :: 0 <= k < |draws| ==> IsDraw(draws[k])
      requires exists k :: 0 <= k < |draws| && !LinkIn(recipes, LinkPrefix + draws[k])
      modifies this
      ensures Valid()
      ensures id == old(nextRecipeId) && id !in old(recipes) && id in recipes
      ensures recipes[id].author == user
      ensures IsShortLink(recipes[id].link) && !LinkIn(old(recipes), recipes[id].link)
      ensures Snapshot() == WithLink(CreatedDb(old(Snapshot()), id, user, data, now), id, recipes[id].link)
      ensures nextRecipeId == id + 1 && nextSubscriptionId == old(nextSubscriptionId)
    {
      ghost var before := Snapshot();
      ghost var k :| 0 <= k < |draws| && !LinkIn(before.recipes, LinkPrefix + draws[k]);
      id := CreateRecipe(user, data, now);
      ghost var inserted := recipes[id];
      LinkInAfterInsert(before.recipes, inserted, LinkPrefix + draws[k]);
      assert recipes == before.recipes[id := inserted];
      AssignShortLink(id, draws);
      LinkInAfterInsert(before.recipes, inserted, recipes[id].link);
      PerformCreateKeepsConsistent(before, id, nextSubscriptionId, user, data, now, recipes[id].link);
    }

    /** `recipe.link = self.generate_short_link(); recipe.save()`. */
    method AssignShortLink(id: RecipeId, draws: seq<string>)
      requires id in recipes
      requires forall k :: 0 <= k < |draws| ==> IsDraw(draws[k])
      requires exists k :: 0 <= k < |draws| && !LinkIn(recipes, LinkPrefix + draws[k])
      modifies this
      ensures id in recipes && IsShortLink(recipes[id].link) && !LinkIn(old(recipes), recipes[id].link)
      ensures Snapshot() == WithLink(old(Snapshot()), id, recipes[id].link)
      ensures nextRecipeId == old(nextRecipeId) && nextSubscriptionId == old(nextSubscriptionId)
    {
      var link := GenerateShortLink(draws);
      recipes := recipes[id := recipes[id].(link := link.value)];
    }

    /**
     * The create endpoint: a rejected request changes nothing, an accepted
     * one is created. Only an accepted request draws short links.
     */
    method Create(user: UserId, data: RecipeData, now: int, draws: seq<string>) returns (status: Status, id: Option<RecipeId>)
      requires Valid() && user in users
      requires forall k :: 0 <= k < |draws| ==> IsDraw(draws[k])
      requires Accepted(data, ingredients, tags, false) ==>
                 exists k :: 0 <= k < |draws| && !LinkIn(recipes, LinkPrefix + draws[k])
      modifies this
      ensures Valid()
      ensures status == Created <==> Accepted(data, old(ingredients), old(tags), false)
      ensures status != Created ==> status == BadRequest && id.None? && unchanged(this)
      ensures status == Created ==> id == Some(old(nextRecipeId)) && id.value in recipes
                                    && recipes[id.value].author == user && IsShortLink(recipes[id.value].link)
      ensures status == Created ==>
                && Creatable(data, old(ingredients), old(tags))
                && id.value !in old(recipes) && !LinkIn(old(recipes), recipes[id.value].link)
                && Snapshot() == WithLink(CreatedDb(old(Snapshot()), id.value, user, data, now), id.value, recipes[id.value].link)
                && nextRecipeId == old(nextRecipeId) + 1 && nextSubscriptionId == old(nextSubscriptionId)
    {
      if !Accepted(data, ingredients, tags, false) {
        return BadRequest, None;
      }
      AcceptedIsWritable(data, ingredients, tags, false);
      var rid := PerformCreate(user, data, now, draws);
      return Created, Some(rid);
    }

    /**
     * The update endpoint, PUT or (`partial`) PATCH: 404 for an unknown
     * recipe, 400 for a rejected request.
     */
    method Update(id: RecipeId, data: RecipeData, partial: bool) returns (status: Status)
      requires Valid()
      modifies this
      ensures Valid()
      ensures id !in old(recipes) ==> status == NotFound && unchanged(this)
      ensures id in old(recipes) && !Accepted(data, old(ingredients), old(tags), partial) ==>
                status == BadRequest && unchanged(this)
      ensures id in old(recipes) && Accepted(data, old(ingredients), old(tags), partial) ==>
                && Writable(data, old(ingredients), old(tags)) && status == Ok
                && Snapshot() == EditedDb(old(Snapshot()), id, data)
                && nextRecipeId == old(nextRecipeId) && nextSubscriptionId == old(nextSubscriptionId)
    {
      if id !in recipes {
        return NotFound;
      }
      if !Accepted(data, ingredients, tags, partial) {
        return BadRequest;
      }
      AcceptedIsWritable(data, ingredients, tags, partial);
      EditKeepsConsistent(Snapshot(), nextRecipeId, nextSubscriptionId, id, data);
      UpdateRecipe(id, data);
      return Ok;
    }

    /**
     * `manage_item` on the cart or favorite table: 404 for an unknown
     * recipe; POST adds the (user, recipe) pair unless it is there (400);
     * DELETE removes every row of the pair and answers 204, or 400 when
     * nothing was deleted. No other table changes.
     */
    method ManageItem(table: ItemTable, verb: Verb, user: UserId, rid: RecipeId) returns (status: Status)
      requires Valid() && user in users
      modifies this
      ensures Valid()
      ensures rid !in old(recipes) ==> status == NotFound && unchanged(this)
      ensures rid in old(recipes) && verb == Post && Membership(user, rid) in old(Rows(table)) ==>
                status == BadRequest && unchanged(this)
      ensures rid in old(recipes) && verb == Post && Membership(user, rid) !in old(Rows(table)) ==>
                status == Created && Rows(table) == old(Rows(table)) + [Membership(user, rid)]
      ensures rid in old(recipes) && verb == Delete && Membership(user, rid) !in old(Rows(table)) ==>
                status == BadRequest && unchanged(this)
      ensures rid in old(recipes) && verb == Delete && Membership(user, rid) in old(Rows(table)) ==>
                status == NoContent && Rows(table) == Except(old(Rows(table)), Membership(user, rid))
      ensures Snapshot() == WithRows(old(Snapshot()), table, Rows(table))
      ensures nextRecipeId == old(nextRecipeId) && nextSubscriptionId == old(nextSubscriptionId)
    {
      if rid !in recipes {
        return NotFound;
      }
      var m := Membership(user, rid);
      var rows := Rows(table);
      ghost var before := Snapshot();
      assert RowsOf(before, table) == rows;
      if verb == Post {
        if m in rows {
          return BadRequest;
        }
        AddRowKeepsConsistent(before, nextRecipeId, nextSubscriptionId, table, m);
        if table == CartTable {
          carts := rows + [m];
        } else {
          favorites := rows + [m];
        }
        return Created;
      } else {
        var remaining := Except(rows, m);
        ExceptCount(rows, m);
        var deletedCount := |rows| - |remaining|;
        if deletedCount == 0 {
          return BadRequest;
        }
        RemoveRowKeepsConsistent(before, nextRecipeId, nextSubscriptionId, table, m);
        if table == CartTable {
          carts := remaining;
        } else {
          favorites := remaining;
        }
        return NoContent;
      }
    }

    /**
     * `SubscriptionViewSet.create`: 404 for an unknown author, 400 when the
     * serializer rejects the pair, otherwise a new row with the next id.
     */
    method Subscribe(user: UserId, author: UserId) returns (status: Status)
      requires Valid() && user in users
      modifies this
      ensures Valid()
      ensures author !in old(users) ==> status == NotFound && unchanged(this)
      ensures author in old(users) && SubscriptionIsValid(old(subscriptions), user, author).Failure? ==>
                status == BadRequest && unchanged(this)
      ensures author in old(users) && SubscriptionIsValid(old(subscriptions), user, author).Success? ==>
                status == Created && nextSubscriptionId == old(nextSubscriptionId) + 1
                && subscriptions == old(subscriptions) + [Subscription(old(nextSubscriptionId), user, author)]
      ensures Snapshot() == old(Snapshot()).(subscriptions := subscriptions)
      ensures nextRecipeId == old(nextRecipeId)
    {
      if author !in users {
        return NotFound;
      }
      if SubscriptionIsValid(subscriptions, user, author).Failure? {
        return BadRequest;
      }
      SubscribeKeepsConsistent(Snapshot(), nextRecipeId, nextSubscriptionId, user, author);
      subscriptions := subscriptions + [Subscription(nextSubscriptionId, user, author)];
      nextSubscriptionId := nextSubscriptionId + 1;
      return Created;
    }

    /**
     * `SubscriptionViewSet.destroy`: 404 for an unknown author; the user's
     * subscriptions to that author are deleted (204), or 400 when there are none.
     */
    method Unsubscribe(user: UserId, author: UserId) returns (status: Status)
      requires Valid()
      modifies this
      ensures Valid()
      ensures author !in old(users) ==> status == NotFound && unchanged(this)
      ensures author in old(users) && !Subscribed(old(subscriptions), user, author) ==>
                status == BadRequest && unchanged(this)
      ensures author in old(users) && Subscribed(old(subscriptions), user, author) ==>
                status == NoContent && subscriptions == SubscriptionsNotBetween(old(subscriptions), user, author)
      ensures Snapshot() == old(Snapshot()).(subscriptions := subscriptions)
      ensures nextRecipeId == old(nextRecipeId) && nextSubscriptionId == old(nextSubscriptionId)
    {
      if author !in users {
        return NotFound;
      }
      if !Subscribed(subscriptions, user, author) {
        return BadRequest;
      }
      UnsubscribeKeepsConsistent(Snapshot(), nextRecipeId, nextSubscriptionId, user, author);
      subscriptions := SubscriptionsNotBetween(subscriptions, user, author);
      return NoContent;
    }

    /**
     * `download_shopping_cart`: the cart's line items summed per (name,
     * unit) and rendered as text.
     */
    method DownloadShoppingCart(user: UserId) returns (text: string)
      ensures text == Join(Lines(Collapse(Aggregate(JoinRows(lineItems, carts, ingredients, user)))), "\n")
    {
      var groups := Aggregate(JoinRows(lineItems, carts, ingredients, user));
      text := CreateShoppingCartResponse(groups);
    }
  }
}
