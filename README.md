# foodgram core in Dafny

A model of the core of the foodgram recipe backend, a Django REST API where
users publish recipes, keep favorites and a shopping cart, follow authors and
download a shopping list. The model covers:

- the database schema (`recipes/models.py`): one datatype per row, the whole
  database as a value, the declared constraints as predicates, and the
  ON DELETE CASCADE rules of recipe and user deletion;
- the username validator (`api/validators.py`): the pattern `^[\w.@+-]+\Z`
  as a character-class predicate, with the `invalid_username` error;
- the query filters (`api/filters.py`): the ingredient name prefix, the
  author, the tag slugs, the shopping cart and the favorites of the user;
- the serializer rules (`api/serializers.py`):
  - the data-URI split of the inline image field;
  - amount validation;
  - the ordered, first-failure-wins recipe validation;
  - create and update with the full replacement of a recipe's line items and tags;
  - the subscription checks;
  - the `recipes_limit` truncation;
  - the subscription representation;
- the view logic (`api/views.py`):
  - short-link issuance and formatting;
  - the cart and favorite toggles;
  - following and unfollowing;
  - the subscription listing;
  - the shopping list: line items summed per (name, unit), then rendered
    with a dictionary keyed by name only.

Modules, one per concern:

- `Wrappers`: `Option` and `Result`.
- `Tables`: tables as sequences of rows, and queryset filtering and deletion.
- `Strings`: split, join, `isdigit`, decimal rendering.
- `Models`
- `Validators`
- `Filters`
- `Serializers`
- `ShortLinks`
- `ShoppingList`
- `Views`

The endpoints that change the database are methods of the class
`Views.Store`. Its fields are the tables. Every endpoint method keeps the
invariant `Valid()`, which holds:

- the schema constraints, with every foreign key resolving;
- no duplicate cart or favorite pair;
- nobody following themselves;
- subscription ids that grow along the table;
- every recipe link empty, or a short link that no other recipe has.

Each method states its whole new state: the tables it rewrites and the tables it leaves unchanged.
The helpers behind recipe creation and editing state their new state as a
function of the old one (`ReplaceItems`, `CreatedDb`, `EditedDb`,
`WithLink`). Separate lemmas prove that these functions keep the invariant.

Randomness comes in as a parameter. `random.choices` becomes a sequence of
drawn 6-character strings, tried in order. The clock becomes the `now`
parameter of recipe creation.

In two places the code as written cannot run. There the model follows the
evident intent, not the code as written:

- `_set_ingredients_and_tags` (backend/api/serializers.py:214) reads
  `recipe.recipeingredient_set`, but the foreign key declares
  `related_name='recipe_ingredients'` (backend/recipes/models.py:108). As
  written, the attribute access raises `AttributeError` after `create` or
  `update` has already saved the recipe row, so every recipe write request
  fails with a server error. The model takes the RecipeIngredient rows as
  the one store of line items and replaces them as the method evidently
  intends.
- `filters.py` imports `Ingredients` and `Tags` from the recipes models,
  which define only `Ingredient` and `Tag`. As written, the import raises
  `ImportError` and the module cannot be loaded. The model takes the
  Ingredient and Tag catalogs as the filters' querysets.

In several places the code does something a reader might not expect, and the
model keeps what the code does:

- The shopping list is joined with `'\n'` (backend/api/views.py:171), so a
  non-empty list has no trailing newline (`NoTrailingNewline`).
- The shopping list is a dict keyed by ingredient name alone
  (backend/api/views.py:155-161). Two ingredients with the same name and
  different units give one line, and the last group wins (`CollapseLastWins`).
- The short link is drawn once, when the recipe is created
  (backend/api/views.py:113-116). `get_short_link`
  (backend/api/views.py:118-126) only reads it and never issues one, so a
  recipe without a link answers none (`GetShortLink`).
- Cart and Favorite declare no unique constraint
  (backend/recipes/models.py:161-199). A user and a recipe appear at most
  once in each table only because `manage_item` checks for the pair before
  it adds one (backend/api/views.py:182-201). The Store invariant states
  this as `NoDuplicates` on both tables.
- Subscribing to oneself is refused by the field validator `validate_author`,
  which runs before the object-level `validate`. So the self-subscription
  error wins over the duplicate error, as `SubscriptionIsValid` states.

## Model

| member | source | states |
|---|---|---|
| Models.DeleteRecipe | backend/recipes/models.py:104-109 | deleting a recipe removes it and exactly its line items, and (through the Cart and Favorite foreign keys, models.py:167-171 and 187-191) exactly its cart and favorite rows; users, subscriptions and catalogs are untouched |
| Models.DeleteRecipeKeepsValid | backend/recipes/models.py:103-119 | the recipe cascade leaves a database whose every constraint holds and whose every foreign key resolves |
| Models.DeleteUser | backend/recipes/models.py:57-61 | deleting a user removes the recipes they wrote with those recipes' line items, cart and favorite rows, their own cart and favorite rows, and every subscription where they are subscriber or author (models.py:135-144); other rows stay |
| Models.DeleteUserKeepsValid | backend/recipes/models.py:134-152 | after the user cascade all constraints hold (including the unique (user, author) pair) and no recipe, cart or favorite row refers to the user |
| Models.NewestFirstSubseq | backend/recipes/models.py:97 | dropping recipes from a listing ordered by `-created_at` keeps it ordered |
| Validators.ValidateUsername | backend/api/validators.py:3-7 | a username is accepted exactly when it is non-empty and every character is a word character or one of `.@+-`; a rejection carries the code `invalid_username` |
| Validators.ClassRunAll | backend/api/validators.py:4 | The greedy run of `[\w.@+-]` characters that starts at a position reaches the end of the string exactly when every character from that position on is in the class. |
| Validators.TrailingNewlineRejected | backend/api/validators.py:4 | because of `\Z`, any value ending in a newline is rejected |
| Validators.DollarWouldAcceptNewline | backend/api/validators.py:4 | with `$` instead of `\Z`, every accepted value followed by a newline would match, so `\Z` is what makes the difference |
| Filters.IngredientsByName | backend/api/filters.py:6-11 | without a name the catalog is returned as it is; with one, exactly the ingredients whose name starts with it, in catalog order |
| Filters.ByAuthor | backend/api/filters.py:15 | exactly the recipes whose author id equals the parameter, in order; the listing unchanged when absent |
| Filters.FirstUnknownSlug | backend/api/filters.py:16-20 | none exactly when every requested slug names a tag; otherwise some requested slug that names no tag. The model picks the first such slug; the form checks the slugs as a set and reports an arbitrary one |
| Filters.ByTagSlugs | backend/api/filters.py:16-20 | the request is refused (the form's invalid choice, answered 400) exactly when a requested slug names no tag, reporting such a slug; otherwise exactly the recipes with at least one tag whose slug is requested, each once, in order, and the listing unchanged when no slug is given |
| Filters.RecipeIdsOf | backend/api/filters.py:33-37 | an id is in the set exactly when the user has a row for that recipe |
| Filters.FilterInShoppingCart | backend/api/filters.py:30-39 | for an authenticated user and a true flag, exactly the input recipes in that user's cart, in order; otherwise the input unchanged |
| Filters.FilterFavorited | backend/api/filters.py:41-50 | the same rule over the user's favorite rows |
| Filters.ApplyRecipeFilters | backend/api/filters.py:14-28 | the whole request is refused exactly when a requested tag slug names no tag; otherwise the result is a subsequence of the listing (a subset in the same order) |
| Filters.RecipeFiltersKeepExactly | backend/api/filters.py:14-50 | when every requested slug names a tag, the request is accepted, a recipe survives exactly when it passes every given filter, and a newest-first listing stays newest first |
| Serializers.ToInternalValue | backend/api/serializers.py:13-21 | a value that is not a string starting with `data:image` is passed through unchanged; a file is produced only from such a string |
| Serializers.NoMarkerRejected | backend/api/serializers.py:15-16 | a data URI without `;base64,` cannot be unpacked into header and payload and is an error |
| Serializers.UploadSplitsAtMarker | backend/api/serializers.py:15-16 | an accepted data URI is exactly header + `;base64,` + payload, and neither part holds the marker |
| Serializers.UploadNamedAfterExtension | backend/api/serializers.py:17-19 | the file is named `temp.` + extension, where the extension ends the header, holds no `/`, and is preceded by `/` unless it is the whole header |
| Serializers.ExtensionAfterLastSlash | backend/api/serializers.py:17 | the last piece of the header split at `/` holds no `/`, ends the header, and follows a `/` unless it is the whole header |
| Serializers.MarkerOnlyAfterHeader | backend/api/serializers.py:16 | in a marker-free header, the marker and a marker-free payload, the marker occurs only right after the header |
| Serializers.DataUriAccepted | backend/api/serializers.py:15-19 | a data URI holding the marker once is accepted, giving the file `temp.` + the header's extension with the payload |
| Serializers.DataUriAcceptedIff | backend/api/serializers.py:15-19 | a data URI is accepted exactly when it splits into a header, the marker and a payload, neither part holding the marker |
| Serializers.TwoMarkersRejected | backend/api/serializers.py:16 | a data URI holding the marker twice is an unpack error (too many values to unpack) |
| Serializers.ValidateAmount | backend/api/serializers.py:114-119 | an amount is accepted exactly when positive and is then returned unchanged; otherwise the amount error |
| Serializers.Validate | backend/api/serializers.py:164-197 | each error is reported exactly when all earlier checks pass and its own fails: missing or empty ingredients, duplicate ingredient ids, missing or empty tags, duplicate tags, missing or non-positive cooking time, falsy image; success exactly when all pass, returning the attributes unchanged |
| Serializers.FirstBadItem | backend/api/serializers.py:110-119 | the nested ingredient list has no error exactly when every id names an ingredient and every amount is positive |
| Serializers.IsValid | backend/api/serializers.py:130-146 | a recipe request is accepted exactly when the field checks pass and every `validate` check passes. The field checks are: known ingredients and tags, positive amounts, a cooking time of at least 1 (its `min_value`), and, unless the update is partial, `ingredients`, `tags`, `cooking_time`, `name` and `text` present. A failing field check is refused with a field error; with valid fields a missing required field is refused as required; otherwise the answer is that of `validate`, whose missing-list and missing-cooking-time errors are then reached only in a partial update |
| Serializers.RequiredBeforeValidate | backend/api/serializers.py:131-135 | on create and PUT, a request without `ingredients`, `tags` or `cooking_time` whose given fields pass is refused as a missing required field, not by `validate` |
| Serializers.CookingTimeMinInEveryMode | backend/recipes/models.py:80-83 | a cooking time below 1 is refused by the field's `min_value`, in partial updates too, once the nested ingredients and the tags pass |
| Serializers.AuthorRecipes | backend/api/serializers.py:261 | exactly the author's recipes, in listing order |
| Serializers.GetRecipes | backend/api/serializers.py:255-270 | always a prefix of the author's recipes; for a digit string its length is the smaller of `int(recipes_limit)` and the author's recipe count; otherwise all of them |
| Serializers.GetRecipesZero | backend/api/serializers.py:263-265 | `recipes_limit=0` gives an empty list |
| Serializers.GetRecipesNegativeIgnored | backend/api/serializers.py:263-265 | `recipes_limit=-1` is not a digit string and gives all the author's recipes |
| Serializers.GetRecipesMostRecent | backend/api/serializers.py:261-265 | on a newest-first listing the truncated list is newest first, and no recipe left out is newer than one kept |
| Serializers.ValidateAuthor | backend/api/serializers.py:284-289 | the author is accepted, unchanged, exactly when it is not the requesting user; otherwise the self-subscription error |
| Serializers.ValidateSubscription | backend/api/serializers.py:291-298 | accepted exactly when no (user, author) row exists; otherwise the already-subscribed error |
| Serializers.SubscriptionIsValid | backend/api/serializers.py:284-298 | accepted exactly when the author is someone else and not yet followed; self-subscription is refused first, whatever the table holds |
| Serializers.ToRepresentation | backend/api/serializers.py:272-282 | the result has no `author` key and always has `recipes_count` (0 when missing); its keys are those of both inputs plus `recipes_count`; the author's user fields override the base ones and the other base fields are kept |
| ShortLinks.AlphabetIsAlphanumeric | backend/api/views.py:129-130 | the alphabet `ascii_letters + digits` has 62 characters, exactly the ASCII letters and digits |
| ShortLinks.DrawnLinkIsShortLink | backend/api/views.py:129-132 | `/s/` followed by a draw of 6 alphabet characters is a short link |
| ShortLinks.ShortLinkShape | backend/api/views.py:129-132 | a short link has length 9, starts with `/s/`, and its other 6 characters are in the alphabet |
| ShortLinks.ShortLinkUrl | backend/api/views.py:121-125 | no URL exactly when the link is empty; otherwise the host prefix followed by the link |
| ShortLinks.ShortLinkUrlInjective | backend/api/views.py:121-125 | different links give different URLs |
| ShoppingList.JoinRows | backend/api/views.py:139-141 | every joined row comes from a line item of a recipe in the user's cart, named after an existing ingredient |
| ShoppingList.JoinRowsWithoutDuplicates | backend/api/views.py:139-141 | when the cart has no duplicate rows, the join is exactly the line items of the recipes in the user's cart (a reference definition), in table order |
| ShoppingList.AggregateSums | backend/api/views.py:142-143 | the groups have distinct (name, unit) keys; a key has a group exactly when some row has it; each group's total is the sum of the amounts of the rows with its key |
| ShoppingList.CartGroupsExact | backend/api/views.py:139-144 | the groups built from a cart are exactly the (name, unit) pairs of its recipes' line items, each summed over them |
| ShoppingList.PutSpec | backend/api/views.py:155-161 | writing a group into the name-keyed dictionary replaces the entry with that name in place, or appends one |
| ShoppingList.CollapseDistinctNames | backend/api/views.py:155-161 | the dictionary has distinct names and no more entries than groups |
| ShoppingList.CollapseCovers | backend/api/views.py:155-161 | every group's name has an entry in the dictionary |
| ShoppingList.CollapseLastWins | backend/api/views.py:155-161 | each entry is the last group with its name: a later group with the same name (even with another unit) overwrites an earlier one |
| ShoppingList.CollapseDistinct | backend/api/views.py:155-161 | when all names differ, the dictionary keeps every group, in order |
| ShoppingList.CollapseShorter | backend/api/views.py:155-161 | two groups with the same name give fewer lines than groups: one of them is lost |
| ShoppingList.Lines | backend/api/views.py:162-170 | one `name (unit) - amount` line per dictionary entry, in entry order |
| ShoppingList.CreateShoppingCartResponse | backend/api/views.py:154-171 | the loops produce the lines of the name-keyed dictionary joined by newlines |
| ShoppingList.EmptyListIsEmptyText | backend/api/views.py:171 | no groups give the empty text |
| ShoppingList.NoTrailingNewline | backend/api/views.py:171 | a non-empty list ends with a digit of the last amount, never with a newline |
| ShoppingList.LineWithoutNewline | backend/api/views.py:165-169 | a line holds no newline when the name and unit hold none |
| ShoppingList.LinesWithoutNewline | backend/api/views.py:162-170 | no rendered line holds a newline when no name or unit does |
| ShoppingList.SplitLines | backend/api/views.py:154-171 | splitting the text at newlines gives back exactly the lines, one per distinct name |
| Views.NewRows | backend/api/serializers.py:215-222 | one line item per requested ingredient, in request order, with its id and amount |
| Views.ReplaceLineItems | backend/api/serializers.py:213-225 | after the replacement the recipe's line items are exactly the new rows and every other recipe keeps exactly its rows |
| Views.LineItemsOfKept | backend/api/serializers.py:214-215 | deleting one recipe's line items leaves another recipe's rows as they were |
| Views.ReplaceTwice | backend/api/serializers.py:206-225 | two updates in a row leave the table as the second one alone would: only the second set remains |
| Views.SubscriptionsNotBetween | backend/api/views.py:292-294 | exactly the subscriptions of other (user, author) pairs remain, in order |
| Views.SubscriptionsOf | backend/api/views.py:260-265 | the listing holds exactly the user's subscriptions |
| Views.SubscriptionsNewestFirst | backend/recipes/models.py:153 | on a table whose ids grow, the user's listing is ordered by id descending |
| Views.IncreasingSubseq | backend/recipes/models.py:153 | dropping rows keeps the ids increasing |
| Views.ReplaceItemsKeepsConsistent | backend/api/serializers.py:213-225 | replacing a recipe's line items and tags with known ingredients, positive amounts and known tags keeps the store invariant |
| Views.PutRecipeKeepsConsistent | backend/api/serializers.py:199-211 | writing a recipe row that satisfies the schema and whose link is free keeps the store invariant |
| Views.AddRowKeepsConsistent | backend/api/views.py:194-201 | adding an absent cart or favorite pair keeps the invariant |
| Views.RemoveRowKeepsConsistent | backend/api/views.py:211-212 | deleting a pair's cart or favorite rows keeps the invariant |
| Views.SubscribeKeepsConsistent | backend/api/views.py:267-273 | appending a new (user, author) subscription with the next id keeps the invariant, uniqueness included |
| Views.UnsubscribeKeepsConsistent | backend/api/views.py:289-295 | deleting a pair's subscriptions keeps the invariant |
| Views.SubscribeThenUnsubscribe | backend/api/views.py:289-295 | following an author and unfollowing again restores the subscription table |
| Views.NewRecipeFits | backend/api/serializers.py:199-204 | a new recipe row with the next id by an existing user satisfies the schema, has a free (empty) link, and no line item refers to it yet |
| Views.LinkInAfterInsert | backend/api/views.py:113-116 | inserting a recipe with an empty link does not change which non-empty links are taken |
| Views.CreateKeepsConsistent | backend/api/serializers.py:199-204 | the next recipe id is unused, and creating a recipe by an existing user from a writable request keeps the invariant, both after the row insert and after the line items |
| Views.EditKeepsConsistent | backend/api/serializers.py:206-211 | editing an existing recipe from a writable request keeps the invariant, both after the row update and after the line items |
| Views.PerformCreateKeepsConsistent | backend/api/views.py:113-116 | giving the new recipe a well-formed short link that no recipe has keeps the invariant |
| Views.BuildRows | backend/api/serializers.py:215-222 | the loop builds exactly the line items `NewRows` describes: one per requested ingredient, in request order |
| Views.Store.GenerateShortLink | backend/api/views.py:128-134 | the result is the first draw whose `/s/` link no recipe has; it is a well-formed short link not among the existing links; there is none exactly when every draw collides |
| Views.Store.GetShortLink | backend/api/views.py:118-126 | 404 exactly for an unknown recipe; otherwise 200 with the host-prefixed URL, or none for an empty link |
| Views.Store.SetIngredientsAndTags | backend/api/serializers.py:213-225 | the new database is `ReplaceItems` of the old one: the recipe's old line items are gone, the new rows appended, its tag set is the requested tags, and nothing else changes (`ReplaceLineItems` and `ReplaceItemsKeepsConsistent` say what that means) |
| Views.Store.CreateRecipe | backend/api/serializers.py:199-204 | the id is the next one and was unused; the new database is `CreatedDb` of the old one: a recipe row with the request's columns, the requested tags and an empty link, and its line items appended; nothing else changes |
| Views.Store.UpdateRecipe | backend/api/serializers.py:206-211 | the new database is `EditedDb` of the old one: the recipe's given columns and its tags take the new values, a `name` or `text` left out keeps its stored value, and its line items are replaced; nothing else changes |
| Views.EditedDbColumns | backend/api/serializers.py:206-211 | the edited recipe keeps its id, author, link and creation time, takes the given image, cooking time and tags, and keeps its stored name or text where a partial update leaves one out; no other recipe changes |
| Views.Store.AssignShortLink | backend/api/views.py:115-116 | the recipe gets a well-formed short link that no recipe had; only that recipe's link changes |
| Views.Store.PerformCreate | backend/api/views.py:113-116 | the invariant is kept; the created recipe has a fresh id, is authored by the requesting user and carries a short link absent from every existing recipe; the new database is the created one with that link, and nothing else changes |
| Views.Store.Create | backend/api/views.py:113-116 | 201 exactly when the request is valid as a full (non-partial) write, so `name` and `text` are present, and then the invariant holds, the next id is used, the recipe is authored by the user with a short link no recipe had, the new database is the created one with that link, and the recipe counter moves on by one; otherwise 400 and nothing changes |
| Views.Store.Update | backend/api/serializers.py:206-211 | for PUT and for PATCH (a partial update): 404 for an unknown recipe and 400 for an invalid request, both changing nothing; otherwise 200, the new database is the edited one (given columns, tags and line items replaced; under PATCH an omitted `name` or `text` kept) and the id counters are unchanged |
| Views.Store.ManageItem | backend/api/views.py:173-225 | 404 for an unknown recipe; POST on a present pair gives 400 and changes nothing, on an absent one 201 and exactly that pair appended; DELETE on an absent pair gives 400 and changes nothing, on a present one 204 and every row of the pair removed; only the chosen table changes |
| Views.Store.Subscribe | backend/api/views.py:267-273 | 404 for an unknown author, 400 and no change when the serializer refuses the pair, otherwise 201 with exactly one new row under the next id; only the subscription table changes |
| Views.Store.Unsubscribe | backend/api/views.py:289-300 | 404 for an unknown author, 400 and no change when the user does not follow them, otherwise 204 with exactly that pair's rows removed |
| Views.Store.DownloadShoppingCart | backend/api/views.py:136-152 | the text is the rendering of the (name, unit) totals of the line items of the recipes in the user's cart |
| Tables.NoDuplicatesIffSetSize | backend/api/serializers.py:171 | `len(l) != len(set(l))` holds exactly when two positions hold equal elements |
| Tables.ExceptCount | backend/api/views.py:212 | the deleted count reported by `.delete()` is the number of rows removed |

## Left out

- User, avatar and authentication endpoints (views.py:34-82), djoser and password hashing: framework identity handling and file storage.
- Pagination, URL routing and the admin sites: configuration only.
- The CSV import command: file I/O plus a bulk insert. `users/models.py` is not part of this model; users are plain ids.
- The permission classes (`OwnerOrReadOnly`, `IsAuthenticatedOrReadOnly`) are not part of this model. Every request is taken as coming from an authenticated user allowed to make it.
- Base64 decoding, `ContentFile` and the image validation of `ImageField`: foreign calls. Only the header and payload split is modelled, and the payload stays encoded.
- Views.Store.GenerateShortLink: `random.choices` is a sequence of draws given by the caller. The `while True` loop is not modelled as running forever: draws that all collide give `None`.
- Views.Store.PerformCreate: requires at least one free draw, in place of the unbounded retry loop.
- Views.Store.Create: when the request is accepted, requires at least one free draw, for the same reason; a rejected request needs none.
- The clock of `auto_now_add` is the `now` parameter.
- `RecipeSerializer.to_representation`, `is_favorited`, `is_in_shopping_cart` and `is_subscribed`: read-side rendering. `SubscriptionRecipeSerializer` output is represented by the recipe rows themselves.
- The `recipes_count` annotation of the subscription query: only its default in `ToRepresentation` is modelled.
- Transactions and concurrent requests: no code here is atomic, and each modelled request completes before the next begins.
- Validators.IsWordChar: `\w` is restricted to ASCII letters, digits and `_`; Python's `\w` on text also accepts letters and digits of other scripts.
- Strings.IsDigits: `str.isdigit` is restricted to the ASCII digits. Python also counts characters such as `²` as digits, yet `int('²')` raises `ValueError`. So `?recipes_limit=²` makes backend/api/serializers.py:263-264 fail with a server error (500), while the model ignores that limit and returns every recipe.
- The 32767 bound of `PositiveSmallIntegerField` on cooking time and amount: integers are unbounded.
- The `max_length` bounds of names, units and text are not checked; those of `Recipe.link` and the tag columns are part of the invariant.
- ShoppingList.Aggregate: the database's order of the `values().annotate(Sum)` groups is not fixed by the query; the model lists groups in first-seen order.
- The parsing of the query string: `author` and the boolean flags come in already parsed. An `author` that is not a number, which the filter form refuses with 400, is not modelled.
- Serializers.IsValid: DRF collects the errors of all fields; the model reports the first one. It checks that `name` and `text` are present, but not their content (length limit, blank values), and it does not check the upper bound that `PositiveSmallIntegerField` puts on `cooking_time`.
- Views.Store.ManageItem: the 400 answer of the nested serializer (views.py:206-209) is not modelled, because the user and recipe it is given always exist and the pair was just checked absent.
