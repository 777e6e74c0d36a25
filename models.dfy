/**
 * The database schema of the recipes application: one datatype per table row,
 * the whole database as a value, the constraints the schema declares as
 * predicates, and the ON DELETE CASCADE rules as functions on the database.
 */
module Models {
  import opened Wrappers
  import opened Tables

  type UserId = nat
  type TagId = nat
  type IngredientId = nat
  type RecipeId = nat

  /** `MinValueValidator(1)` on `Recipe.cooking_time`. */
  const MinCookingTime := 1
  /** `MinValueValidator(1)` on `RecipeIngredient.amount`. */
  const MinAmount := 1
  /** `max_length` of `Recipe.link`. */
  const MaxLinkLength := 10
  /** `max_length` of `Tag.name` and `Tag.slug`. */
  const MaxTagLength := 32

  /** A tag; the slug column is nullable. */
  datatype Tag = Tag(name: string, slug: Option<string>)

  datatype Ingredient = Ingredient(name: string, measurementUnit: string)

  /**
   * A recipe row with its many-to-many tag set. `cookingTime` is a positive
   * small integer column (so never negative); `link` defaults to the empty string.
   */
  datatype Recipe = Recipe(
    id: RecipeId,
    author: UserId,
    tags: set<TagId>,
    name: string,
    image: string,
    text: string,
    cookingTime: nat,
    createdAt: int,
    link: string)

  /** One line item of a recipe: an ingredient and its amount. */
  datatype RecipeIngredient = RecipeIngredient(recipe: RecipeId, ingredient: IngredientId, amount: nat)

  /** `user` follows `author`; `id` is the auto-increment primary key. */
  datatype Subscription = Subscription(id: nat, user: UserId, author: UserId)

  /** A row of the Cart table or of the Favorite table: the two have the same columns. */
  datatype Membership = Membership(user: UserId, recipe: RecipeId)

  datatype Db = Db(
    users: set<UserId>,
    tags: map<TagId, Tag>,
    ingredients: map<IngredientId, Ingredient>,
    recipes: map<RecipeId, Recipe>,
    lineItems: seq<RecipeIngredient>,
    subscriptions: seq<Subscription>,
    carts: seq<Membership>,
    favorites: seq<Membership>)

  /** Tag names are unique, non-null slugs are unique, both fit in 32 characters. */
  ghost predicate ValidTags(tags: map<TagId, Tag>) {
    && (forall t :: t in tags ==> |tags[t].name| <= MaxTagLength)
    && (forall t :: t in tags && tags[t].slug.Some? ==> |tags[t].slug.value| <= MaxTagLength)
    && (forall a, b :: a in tags && b in tags && a != b ==> tags[a].name != tags[b].name)
    && (forall a, b :: a in tags && b in tags && a != b && tags[a].slug.Some? ==> tags[a].slug != tags[b].slug)
  }

  ghost predicate ValidRecipe(db: Db, r: Recipe) {
    && r.cookingTime >= MinCookingTime
    && |r.link| <= MaxLinkLength
    && r.author in db.users
    && r.tags <= db.tags.Keys
  }

  ghost predicate ValidLineItem(db: Db, li: RecipeIngredient) {
    li.amount >= MinAmount && li.recipe in db.recipes && li.ingredient in db.ingredients
  }

  ghost predicate ValidMembership(db: Db, m: Membership) {
    m.user in db.users && m.recipe in db.recipes
  }

  /** The `unique_user_author` constraint, with `id` as primary key. */
  ghost predicate SubscriptionsUnique(subs: seq<Subscription>) {
    && NoDuplicates(subs)
    && forall a, b :: a in subs && b in subs && a.user == b.user && a.author == b.author ==> a == b
  }

  /** Every constraint the schema declares, and every foreign key resolving. */
  ghost predicate ValidDb(db: Db) {
    && ValidTags(db.tags)
    && (forall id :: id in db.recipes ==> db.recipes[id].id == id && ValidRecipe(db, db.recipes[id]))
    && (forall li :: li in db.lineItems ==> ValidLineItem(db, li))
    && (forall s :: s in db.subscriptions ==> s.user in db.users && s.author in db.users)
    && SubscriptionsUnique(db.subscriptions)
    && (forall m :: m in db.carts ==> ValidMembership(db, m))
    && (forall m :: m in db.favorites ==> ValidMembership(db, m))
  }

  function LineItemsNotOf(items: seq<RecipeIngredient>, rid: RecipeId): (r: seq<RecipeIngredient>)
    ensures forall li :: li in r <==> li in items && li.recipe != rid
  {
    Filter(items, (li: RecipeIngredient) => li.recipe != rid)
  }

  function MembershipsNotOf(rows: seq<Membership>, rid: RecipeId): (r: seq<Membership>)
    ensures forall m :: m in r <==> m in rows && m.recipe != rid
  {
    Filter(rows, (m: Membership) => m.recipe != rid)
  }

  /**
   * Deleting a recipe: its line items, cart rows and favorite rows go with
   * it; every other row is kept, in order.
   */
  function DeleteRecipe(db: Db, rid: RecipeId): (d: Db)
    ensures rid !in d.recipes && d.recipes == db.recipes - {rid}
    ensures forall li :: li in d.lineItems <==> li in db.lineItems && li.recipe != rid
    ensures forall m :: m in d.carts <==> m in db.carts && m.recipe != rid
    ensures forall m :: m in d.favorites <==> m in db.favorites && m.recipe != rid
    ensures d.users == db.users && d.subscriptions == db.subscriptions
    ensures d.tags == db.tags && d.ingredients == db.ingredients
  {
    db.(recipes := db.recipes - {rid},
        lineItems := LineItemsNotOf(db.lineItems, rid),
        carts := MembershipsNotOf(db.carts, rid),
        favorites := MembershipsNotOf(db.favorites, rid))
  }

  /** The cascade leaves no dangling reference behind. */
  lemma DeleteRecipeKeepsValid(db: Db, rid: RecipeId)
    requires ValidDb(db)
    ensures ValidDb(DeleteRecipe(db, rid))
  {
    var d := DeleteRecipe(db, rid);
    forall id | id in d.recipes ensures ValidRecipe(d, d.recipes[id]) {
      assert ValidRecipe(db, db.recipes[id]);
    }
    forall li | li in d.lineItems ensures ValidLineItem(d, li) {
      assert ValidLineItem(db, li);
    }
    forall m | m in d.carts ensures ValidMembership(d, m) {
      assert ValidMembership(db, m);
    }
    forall m | m in d.favorites ensures ValidMembership(d, m) {
      assert ValidMembership(db, m);
    }
  }

  /** The ids of the recipes `uid` wrote. */
  function AuthoredBy(recipes: map<RecipeId, Recipe>, uid: UserId): (ids: set<RecipeId>)
    ensures forall id :: id in ids <==> id in recipes && recipes[id].author == uid
  {
    set id | id in recipes && recipes[id].author == uid
  }

  function SubscriptionsWithout(subs: seq<Subscription>, uid: UserId): (r: seq<Subscription>)
    ensures forall s :: s in r <==> s in subs && s.user != uid && s.author != uid
  {
    Filter(subs, (s: Subscription) => s.user != uid && s.author != uid)
  }

  function MembershipsWithout(rows: seq<Membership>, uid: UserId, gone: set<RecipeId>): (r: seq<Membership>)
    ensures forall m :: m in r <==> m in rows && m.user != uid && m.recipe !in gone
  {
    Filter(rows, (m: Membership) => m.user != uid && m.recipe !in gone)
  }

  function LineItemsWithout(items: seq<RecipeIngredient>, gone: set<RecipeId>): (r: seq<RecipeIngredient>)
    ensures forall li :: li in r <==> li in items && li.recipe !in gone
  {
    Filter(items, (li: RecipeIngredient) => li.recipe !in gone)
  }

  /**
   * Deleting a user: the recipes they wrote (and, through them, those
   * recipes' line items, cart and favorite rows), their own cart and favorite
   * rows, and every subscription in which they are the subscriber or the author.
   */
  function DeleteUser(db: Db, uid: UserId): (d: Db)
    ensures uid !in d.users && d.users == db.users - {uid}
    ensures forall id :: id in d.recipes <==> id in db.recipes && db.recipes[id].author != uid
    ensures forall id :: id in d.recipes ==> d.recipes[id] == db.recipes[id]
    ensures forall s :: s in d.subscriptions <==> s in db.subscriptions && s.user != uid && s.author != uid
    ensures forall li :: li in d.lineItems <==>
              li in db.lineItems && li.recipe !in AuthoredBy(db.recipes, uid)
    ensures forall m :: m in d.carts <==>
              m in db.carts && m.user != uid && m.recipe !in AuthoredBy(db.recipes, uid)
    ensures forall m :: m in d.favorites <==>
              m in db.favorites && m.user != uid && m.recipe !in AuthoredBy(db.recipes, uid)
    ensures d.tags == db.tags && d.ingredients == db.ingredients
  {
    var gone := AuthoredBy(db.recipes, uid);
    db.(users := db.users - {uid},
        recipes := map id | id in db.recipes && id !in gone :: db.recipes[id],
        lineItems := LineItemsWithout(db.lineItems, gone),
        subscriptions := SubscriptionsWithout(db.subscriptions, uid),
        carts := MembershipsWithout(db.carts, uid, gone),
        favorites := MembershipsWithout(db.favorites, uid, gone))
  }

  /** After the cascade every foreign key still resolves and nothing refers to the user. */
  lemma DeleteUserKeepsValid(db: Db, uid: UserId)
    requires ValidDb(db)
    ensures ValidDb(DeleteUser(db, uid))
    ensures forall id :: id in DeleteUser(db, uid).recipes ==> DeleteUser(db, uid).recipes[id].author != uid
    ensures forall m :: m in DeleteUser(db, uid).carts ==> m.user != uid
    ensures forall m :: m in DeleteUser(db, uid).favorites ==> m.user != uid
  {
    var d := DeleteUser(db, uid);
    forall id | id in d.recipes ensures d.recipes[id].id == id && ValidRecipe(d, d.recipes[id]) {
      assert ValidRecipe(db, db.recipes[id]);
    }
    forall li | li in d.lineItems ensures ValidLineItem(d, li) {
      assert ValidLineItem(db, li);
      assert db.recipes[li.recipe].author != uid;
    }
    forall s | s in d.subscriptions ensures s.user in d.users && s.author in d.users {
    }
    assert SubscriptionsUnique(d.subscriptions) by {
      FilterKeepsNoDuplicates(db.subscriptions, (s: Subscription) => s.user != uid && s.author != uid);
    }
    forall m | m in d.carts ensures ValidMembership(d, m) {
      assert ValidMembership(db, m);
    }
    forall m | m in d.favorites ensures ValidMembership(d, m) {
      assert ValidMembership(db, m);
    }
  }

  /** Recipes listed newest first: the default ordering `-created_at`. */
  predicate NewestFirst(rs: seq<Recipe>) {
    forall i, j :: 0 <= i < j < |rs| ==> rs[i].createdAt >= rs[j].createdAt
  }

  /** Dropping recipes from a newest-first listing leaves it newest first. */
  lemma {:induction false} NewestFirstSubseq(a: seq<Recipe>, b: seq<Recipe>)
    requires SubseqOf(a, b) && NewestFirst(b)
    ensures NewestFirst(a)
    decreases |b|
  {
    if a != [] {
      assert NewestFirst(b[1..]) by {
        forall i, j | 0 <= i < j < |b[1..]| ensures b[1..][i].createdAt >= b[1..][j].createdAt {
          assert b[1..][i] == b[i + 1] && b[1..][j] == b[j + 1];
        }
      }
      if a[0] == b[0] {
        NewestFirstSubseq(a[1..], b[1..]);
        SubseqElements(a[1..], b[1..]);
        forall i, j | 0 <= i < j < |a| ensures a[i].createdAt >= a[j].createdAt {
          if i == 0 {
            assert a[j] == a[1..][j - 1];
            assert a[j] in b[1..];
            var k :| 0 <= k < |b[1..]| && b[1..][k] == a[j];
            assert b[1..][k] == b[k + 1];
          } else {
            assert a[i] == a[1..][i - 1] && a[j] == a[1..][j - 1];
          }
        }
      } else {
        NewestFirstSubseq(a, b[1..]);
      }
    }
  }
}
