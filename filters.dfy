/**
 * The query filters of the listing endpoints: the ingredient name prefix
 * filter and the recipe filter set (author, tag slugs, shopping cart and
 * favorites of the current user). Each keeps a subset of its input listing
 * in the input's order; a parameter that is absent leaves the listing as it is.
 */
module Filters {
  import opened Wrappers
  import opened Tables
  import opened Models

  /** `name` with `lookup_expr='startswith'` on the ingredient catalog listing. */
  function IngredientsByName(ings: seq<Ingredient>, name: Option<string>): (r: seq<Ingredient>)
    ensures name.None? ==> r == ings
    ensures name.Some? ==> forall i :: i in r <==> i in ings && name.value <= i.name
    ensures SubseqOf(r, ings)
  {
    if name.None? then
      SubseqRefl(ings);
      ings
    else
      FilterIsSubseq(ings, (i: Ingredient) => name.value <= i.name);
      Filter(ings, (i: Ingredient) => name.value <= i.name)
  }

  /** `author` with `lookup_expr='exact'`. */
  function ByAuthor(rs: seq<Recipe>, author: Option<int>): (r: seq<Recipe>)
    ensures author.None? ==> r == rs
    ensures author.Some? ==> forall x :: x in r <==> x in rs && x.author == author.value
    ensures SubseqOf(r, rs)
  {
    if author.None? then
      SubseqRefl(rs);
      rs
    else
      FilterIsSubseq(rs, (x: Recipe) => x.author == author.value);
      Filter(rs, (x: Recipe) => x.author == author.value)
  }

  /** The recipe carries a tag whose slug is one of `slugs`. */
  predicate HasTagSlug(x: Recipe, tags: map<TagId, Tag>, slugs: seq<string>) {
    exists t :: t in x.tags && t in tags && tags[t].slug.Some? && tags[t].slug.value in slugs
  }

  /** Some tag of the catalog has `slug`: the choices the multiple-choice filter accepts. */
  predicate KnownSlug(tags: map<TagId, Tag>, slug: string) {
    exists t :: t in tags && tags[t].slug == Some(slug)
  }

  /** The filter form refuses a query value that names no tag (answered with 400). */
  datatype FilterError = InvalidChoice(slug: string)

  /**
   * Some requested slug that names no tag, if there is one. The model picks
   * the first; the form checks the values as a set and so reports an
   * arbitrary one of them.
   */
  function FirstUnknownSlug(tags: map<TagId, Tag>, slugs: seq<string>): (r: Option<string>)
    ensures r.None? <==> forall s :: s in slugs ==> KnownSlug(tags, s)
    ensures r.Some? ==> r.value in slugs && !KnownSlug(tags, r.value)
  {
    if slugs == [] then None
    else if !KnownSlug(tags, slugs[0]) then Some(slugs[0])
    else
      var r := FirstUnknownSlug(tags, slugs[1..]);
      assert forall s :: s in slugs ==> s == slugs[0] || s in slugs[1..];
      r
  }

  /**
   * `tags` on `tags__slug` with the tag catalog as its choices: a slug that
   * names no tag makes the request invalid; otherwise a recipe is kept when
   * at least one of its tags has one of the requested slugs, each recipe
   * once (the filter is distinct).
   */
  function ByTagSlugs(rs: seq<Recipe>, tags: map<TagId, Tag>, slugs: seq<string>): (r: Result<seq<Recipe>, FilterError>)
    ensures r.Failure? <==> exists s :: s in slugs && !KnownSlug(tags, s)
    ensures r.Failure? ==> r.error.slug in slugs && !KnownSlug(tags, r.error.slug)
    ensures r.Success? && slugs == [] ==> r.value == rs
    ensures r.Success? && slugs != [] ==> forall x :: x in r.value <==> x in rs && HasTagSlug(x, tags, slugs)
    ensures r.Success? ==> SubseqOf(r.value, rs)
  {
    match FirstUnknownSlug(tags, slugs)
    case Some(s) => Failure(InvalidChoice(s))
    case None =>
      if slugs == [] then
        SubseqRefl(rs);
        Success(rs)
      else
        FilterIsSubseq(rs, (x: Recipe) => HasTagSlug(x, tags, slugs));
        Success(Filter(rs, (x: Recipe) => HasTagSlug(x, tags, slugs)))
  }

  /** The recipe ids of `user`'s rows in a Cart or Favorite table. */
  function RecipeIdsOf(rows: seq<Membership>, user: UserId): (ids: set<RecipeId>)
    ensures forall id :: id in ids <==> Membership(user, id) in rows
  {
    set m | m in rows && m.user == user :: m.recipe
  }

  /** Keeps the recipes whose id is in `ids`. */
  function WithIds(rs: seq<Recipe>, ids: set<RecipeId>): (r: seq<Recipe>)
    ensures forall x :: x in r <==> x in rs && x.id in ids
    ensures SubseqOf(r, rs)
  {
    FilterIsSubseq(rs, (x: Recipe) => x.id in ids);
    Filter(rs, (x: Recipe) => x.id in ids)
  }

  /**
   * `filter_in_shopping_cart`: for an authenticated user and a true flag,
   * the recipes in that user's cart; otherwise the listing unchanged.
   * `user` is None for an anonymous request.
   */
  function FilterInShoppingCart(rs: seq<Recipe>, db: Db, user: Option<UserId>, value: bool): (r: seq<Recipe>)
    ensures user.None? || !value ==> r == rs
    ensures user.Some? && value ==>
              forall x :: x in r <==> x in rs && Membership(user.value, x.id) in db.carts
    ensures SubseqOf(r, rs)
  {
    if user.Some? && value then WithIds(rs, RecipeIdsOf(db.carts, user.value))
    else
      SubseqRefl(rs);
      rs
  }

  /** `filter_favorited`: the same rule over the user's Favorite rows. */
  function FilterFavorited(rs: seq<Recipe>, db: Db, user: Option<UserId>, value: bool): (r: seq<Recipe>)
    ensures user.None? || !value ==> r == rs
    ensures user.Some? && value ==>
              forall x :: x in r <==> x in rs && Membership(user.value, x.id) in db.favorites
    ensures SubseqOf(r, rs)
  {
    if user.Some? && value then WithIds(rs, RecipeIdsOf(db.favorites, user.value))
    else
      SubseqRefl(rs);
      rs
  }

  /** The query parameters the recipe filter set reads; a boolean flag may be absent. */
  datatype RecipeQuery = RecipeQuery(
    author: Option<int>,
    tags: seq<string>,
    isInShoppingCart: Option<bool>,
    isFavorited: Option<bool>)

  /** Whether one recipe passes every filter of the query. */
  predicate Passes(x: Recipe, db: Db, user: Option<UserId>, q: RecipeQuery) {
    && (q.author.Some? ==> x.author == q.author.value)
    && (q.tags != [] ==> HasTagSlug(x, db.tags, q.tags))
    && (user.Some? && q.isInShoppingCart == Some(true) ==> Membership(user.value, x.id) in db.carts)
    && (user.Some? && q.isFavorited == Some(true) ==> Membership(user.value, x.id) in db.favorites)
  }

  /**
   * The filter set applied to a listing, filter after filter in declaration
   * order. The form is validated first: an invalid tag value refuses the
   * whole request.
   */
  function ApplyRecipeFilters(rs: seq<Recipe>, db: Db, user: Option<UserId>, q: RecipeQuery): (r: Result<seq<Recipe>, FilterError>)
    ensures r.Failure? <==> exists s :: s in q.tags && !KnownSlug(db.tags, s)
    ensures r.Success? ==> SubseqOf(r.value, rs)
  {
    var r1 := ByAuthor(rs, q.author);
    match ByTagSlugs(r1, db.tags, q.tags)
    case Failure(e) => Failure(e)
    case Success(r2) =>
      var r3 := if q.isInShoppingCart.Some? then FilterInShoppingCart(r2, db, user, q.isInShoppingCart.value) else r2;
      var r4 := if q.isFavorited.Some? then FilterFavorited(r3, db, user, q.isFavorited.value) else r3;
      SubseqRefl(r2);
      SubseqRefl(r3);
      SubseqTrans(r2, r1, rs);
      SubseqTrans(r3, r2, rs);
      SubseqTrans(r4, r3, rs);
      Success(r4)
  }

  /**
   * On a valid request, exactly the recipes passing every filter remain, in
   * the order of the listing, so a newest-first listing stays newest first.
   */
  lemma RecipeFiltersKeepExactly(rs: seq<Recipe>, db: Db, user: Option<UserId>, q: RecipeQuery)
    requires forall s :: s in q.tags ==> KnownSlug(db.tags, s)
    ensures ApplyRecipeFilters(rs, db, user, q).Success?
    ensures forall x :: x in ApplyRecipeFilters(rs, db, user, q).value <==> x in rs && Passes(x, db, user, q)
    ensures NewestFirst(rs) ==> NewestFirst(ApplyRecipeFilters(rs, db, user, q).value)
  {
    var r1 := ByAuthor(rs, q.author);
    var r2 := ByTagSlugs(r1, db.tags, q.tags).value;
    var r3 := if q.isInShoppingCart.Some? then FilterInShoppingCart(r2, db, user, q.isInShoppingCart.value) else r2;
    var r4 := if q.isFavorited.Some? then FilterFavorited(r3, db, user, q.isFavorited.value) else r3;
    assert ApplyRecipeFilters(rs, db, user, q) == Success(r4);
    forall x ensures x in r4 <==> x in rs && Passes(x, db, user, q) {
      assert x in r1 <==> x in rs && (q.author.Some? ==> x.author == q.author.value);
      assert x in r2 <==> x in r1 && (q.tags != [] ==> HasTagSlug(x, db.tags, q.tags));
      assert x in r3 <==>
        (x in r2 && (user.Some? && q.isInShoppingCart == Some(true) ==> Membership(user.value, x.id) in db.carts));
      assert x in r4 <==>
        (x in r3 && (user.Some? && q.isFavorited == Some(true) ==> Membership(user.value, x.id) in db.favorites));
    }
    if NewestFirst(rs) {
      NewestFirstSubseq(r4, rs);
    }
  }
}
