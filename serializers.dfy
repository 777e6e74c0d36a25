/**
 * The validation and read-side rules of the API serializers that do not
 * touch the database: the inline image field, the amount and recipe
 * checks, the subscription checks, the truncated recipe list of a followed
 * author and the subscription representation.
 */
module Serializers {
  import opened Wrappers
  import opened Tables
  import opened Strings
  import opened Models

  // ---------------------------------------------------------------- image field

  const DataImagePrefix := "data:image"
  const Base64Marker := ";base64,"

  /**
   * A value of an image field: the submitted text, a non-text value, or the
   * file built from a data URI (its name and its still-encoded payload).
   */
  datatype ImageData = Str(text: string) | NotStr | File(name: string, payload: string)

  /** Tuple unpacking of the split found zero or several `;base64,` markers. */
  datatype ImageError = UnpackError

  /**
   * `Base64ImageField.to_internal_value` up to the decoding: a text starting
   * with `data:image` is cut at `;base64,` into a header and a payload, and
   * the file is named `temp.` followed by what comes after the last `/` of
   * the header. Anything else goes through unchanged.
   */
  function ToInternalValue(data: ImageData): (r: Result<ImageData, ImageError>)
    ensures !(data.Str? && DataImagePrefix <= data.text) ==> r == Success(data)
    ensures r.Success? && r.value.File? && !data.File? ==> data.Str? && DataImagePrefix <= data.text
  {
    if data.Str? && DataImagePrefix <= data.text then
      var parts := Split(data.text, Base64Marker);
      if |parts| != 2 then Failure(UnpackError)
      else
        var ext := Last(Split(parts[0], "/"));
        Success(File("temp." + ext, parts[1]))
    else Success(data)
  }

  /**
   * A data URI without the marker cannot be unpacked into header and payload.
   */
  lemma NoMarkerRejected(text: string)
    requires DataImagePrefix <= text && !Contains(text, Base64Marker)
    ensures ToInternalValue(Str(text)) == Failure(UnpackError)
  {
    SplitWithoutSep(text, Base64Marker);
  }

  /**
   * A data URI that is accepted is the header, the marker and the payload
   * put back together, and neither part holds the marker.
   */
  lemma UploadSplitsAtMarker(text: string)
    requires ToInternalValue(Str(text)).Success? && ToInternalValue(Str(text)).value.File?
    ensures var f := ToInternalValue(Str(text)).value;
      && |f.payload| + |Base64Marker| <= |text|
      && var header := text[..|text| - |Base64Marker| - |f.payload|];
      && text == header + Base64Marker + f.payload
      && !Contains(header, Base64Marker) && !Contains(f.payload, Base64Marker)
  {
    var parts := Split(text, Base64Marker);
    JoinSplit(text, Base64Marker);
    SplitPiecesFree(text, Base64Marker);
    assert text == parts[0] + Base64Marker + parts[1];
    assert text[..|text| - |Base64Marker| - |parts[1]|] == parts[0];
  }

  /** The comma that ends the marker appears nowhere else in it. */
  lemma CommaOnlyAtEnd()
    ensures Base64Marker[|Base64Marker| - 1] == ','
    ensures forall j :: 0 <= j < |Base64Marker| - 1 ==> Base64Marker[j] != ','
  {
    assert Base64Marker == ";base64" + ",";
    forall j | 0 <= j < |Base64Marker| - 1 ensures Base64Marker[j] != ',' {
      assert Base64Marker[j] in ";base64";
    }
  }

  /**
   * In a header, the marker and a payload, neither part holding the marker,
   * the marker occurs at one position only: right after the header. (Its
   * last character, the comma, appears nowhere else in it.)
   */
  lemma MarkerOnlyAfterHeader(header: string, payload: string, i: nat)
    requires !Contains(header, Base64Marker) && !Contains(payload, Base64Marker)
    requires OccursAt(header + Base64Marker + payload, Base64Marker, i)
    ensures i == |header|
  {
    var text := header + Base64Marker + payload;
    var m, h := |Base64Marker|, |header|;
    assert text == header + (Base64Marker + payload);
    OccursInFront(header, Base64Marker + payload, Base64Marker, i);
    OccursInBack(header + Base64Marker, payload, Base64Marker, i);
    // an overlapping window would put the marker's comma on one of its other characters
    OccursAtChar(text, Base64Marker, i, m - 1);
    OccursAtChar(text, Base64Marker, i, h + m - 1 - i);
    CommaOnlyAtEnd();
  }

  /** `text` is a header, the marker and a payload, neither part holding the marker. */
  predicate SplitsOnceAt(text: string, header: string, payload: string) {
    && text == header + Base64Marker + payload
    && !Contains(header, Base64Marker) && !Contains(payload, Base64Marker)
  }

  /**
   * A data URI holding the marker once is accepted: the file is named after
   * the header's extension and holds the payload.
   */
  lemma DataUriAccepted(header: string, payload: string)
    requires DataImagePrefix <= header + Base64Marker + payload
    requires !Contains(header, Base64Marker) && !Contains(payload, Base64Marker)
    ensures ToInternalValue(Str(header + Base64Marker + payload))
            == Success(File("temp." + Last(Split(header, "/")), payload))
  {
    var text := header + Base64Marker + payload;
    forall i | 0 <= i < |header| ensures !OccursAt(text, Base64Marker, i) {
      if OccursAt(text, Base64Marker, i) {
        MarkerOnlyAfterHeader(header, payload, i);
      }
    }
    SplitAtFirstSep(header, Base64Marker, payload);
    SplitWithoutSep(payload, Base64Marker);
    assert Split(text, Base64Marker) == [header, payload];
  }

  /**
   * Acceptance as an if-and-only-if: a data URI is accepted exactly when it
   * is a header, the marker and a payload, neither part holding the marker.
   */
  lemma DataUriAcceptedIff(text: string)
    requires DataImagePrefix <= text
    ensures ToInternalValue(Str(text)).Success? <==>
            exists header, payload :: SplitsOnceAt(text, header, payload)
  {
    if ToInternalValue(Str(text)).Success? {
      UploadSplitsAtMarker(text);
      var payload := ToInternalValue(Str(text)).value.payload;
      var header := text[..|text| - |Base64Marker| - |payload|];
      assert SplitsOnceAt(text, header, payload);
    }
    if exists header, payload :: SplitsOnceAt(text, header, payload) {
      var header, payload :| SplitsOnceAt(text, header, payload);
      DataUriAccepted(header, payload);
    }
  }

  /**
   * A data URI holding the marker twice cannot be unpacked into a header and
   * a payload.
   */
  lemma TwoMarkersRejected(a: string, b: string, c: string)
    requires DataImagePrefix <= a + Base64Marker + b + Base64Marker + c
    ensures ToInternalValue(Str(a + Base64Marker + b + Base64Marker + c)) == Failure(UnpackError)
  {
    var text := a + Base64Marker + b + Base64Marker + c;
    DataUriAcceptedIff(text);
    forall header, payload ensures !SplitsOnceAt(text, header, payload) {
      TwoMarkersNoSplit(a, b, c, header, payload);
    }
  }

  /** Two occurrences of the marker leave no single split into header and payload. */
  lemma TwoMarkersNoSplit(a: string, b: string, c: string, header: string, payload: string)
    ensures !SplitsOnceAt(a + Base64Marker + b + Base64Marker + c, header, payload)
  {
    var text := a + Base64Marker + b + Base64Marker + c;
    OccursAfter(a, Base64Marker, b + Base64Marker + c);
    OccursAfter(a + Base64Marker + b, Base64Marker, c);
    assert text == a + Base64Marker + (b + Base64Marker + c);
    if SplitsOnceAt(text, header, payload) {
      MarkerOnlyAfterHeader(header, payload, |a|);
      MarkerOnlyAfterHeader(header, payload, |a + Base64Marker + b|);
      assert false;
    }
  }

  /**
   * `ext` is what follows the last `/` of `header`: it holds no `/`, ends the
   * header, and a `/` comes right before it unless it is the whole header.
   */
  predicate ExtensionOf(header: string, ext: string) {
    && !Contains(ext, "/") && |ext| <= |header| && header[|header| - |ext|..] == ext
    && (|ext| < |header| ==> header[|header| - |ext| - 1] == '/')
  }

  /** The last piece of the header split at `/` is its extension. */
  lemma ExtensionAfterLastSlash(header: string)
    ensures ExtensionOf(header, Last(Split(header, "/")))
  {
    var ext := Last(Split(header, "/"));
    LastPieceSuffix(header, "/");
    if |Split(header, "/")| == 1 {
      JoinSplit(header, "/");
      assert |ext| == |header|;
    } else {
      var k := |header| - |ext| - 1;
      var slash := header[k..k + 1];
      assert slash == "/";
      assert header[k] == slash[0] == '/';
    }
  }

  /**
   * The file name of an accepted data URI is `temp.` and the extension of its
   * header.
   */
  lemma UploadNamedAfterExtension(text: string)
    requires ToInternalValue(Str(text)).Success? && ToInternalValue(Str(text)).value.File?
    ensures var f := ToInternalValue(Str(text)).value;
      && "temp." <= f.name
      && ExtensionOf(Split(text, Base64Marker)[0], f.name[|"temp."|..])
  {
    var header := Split(text, Base64Marker)[0];
    var ext := Last(Split(header, "/"));
    var f := ToInternalValue(Str(text)).value;
    assert f.name == "temp." + ext;
    assert f.name[|"temp."|..] == ext;
    ExtensionAfterLastSlash(header);
  }

  // ---------------------------------------------------------------- recipes

  /** `IngredientAmountSerializer.validate_amount`: a positive amount is returned as it is. */
  function ValidateAmount(value: int): (r: Result<int, RecipeError>)
    ensures r.Success? <==> value > 0
    ensures r.Success? ==> r.value == value
    ensures r.Failure? ==> r.error == AmountNotPositive
  {
    if value <= 0 then Failure(AmountNotPositive) else Success(value)
  }

  datatype RecipeError =
    | FieldRequired        // 'This field is required.'
    | CookingTimeBelowMin  // 'Ensure this value is greater than or equal to 1.' (min_value of cooking_time)
    | NoIngredients        // 'At least one ingredient is required.'
    | DuplicateIngredients // 'Duplicate ingredients are not allowed.'
    | NoTags               // 'At least one tag is required.'
    | DuplicateTags        // 'Duplicate tags are not allowed.'
    | BadCookingTime       // 'Cooking time must be a positive number.'
    | NoImage              // 'Image is a required field.'
    | AmountNotPositive    // 'Amount must be a positive number.'
    | UnknownIngredient    // an ingredient id that names no ingredient
    | UnknownTag           // a tag id that names no tag

  /** One requested line item: an ingredient id and an amount. */
  datatype IngredientAmount = IngredientAmount(id: IngredientId, amount: int)

  /**
   * The attributes of a recipe write request; each may be missing from the
   * request (None). `image` is the stored image reference.
   */
  datatype RecipeData = RecipeData(
    ingredients: Option<seq<IngredientAmount>>,
    tags: Option<seq<TagId>>,
    cookingTime: Option<int>,
    image: Option<string>,
    name: Option<string>,
    text: Option<string>)

  function IngredientIds(items: seq<IngredientAmount>): (ids: seq<IngredientId>)
    ensures |ids| == |items| && forall k :: 0 <= k < |items| ==> ids[k] == items[k].id
  {
    seq(|items|, k requires 0 <= k < |items| => items[k].id)
  }

  /** The ingredient list is present, non-empty and names no ingredient twice. */
  predicate IngredientsOk(a: RecipeData) {
    a.ingredients.Some? && |a.ingredients.value| > 0 && NoDuplicates(IngredientIds(a.ingredients.value))
  }

  /** The tag list is present, non-empty and names no tag twice. */
  predicate TagsOk(a: RecipeData) {
    a.tags.Some? && |a.tags.value| > 0 && NoDuplicates(a.tags.value)
  }

  predicate CookingTimeOk(a: RecipeData) {
    a.cookingTime.Some? && a.cookingTime.value > 0
  }

  /** The image is present and not empty (not falsy). */
  predicate ImageOk(a: RecipeData) {
    a.image.Some? && a.image.value != ""
  }

  /**
   * `RecipeSerializer.validate`: the checks run in the order ingredients,
   * tags, cooking time, image; the first one that fails decides the error,
   * and when all pass the attributes are returned unchanged.
   */
  function Validate(attrs: RecipeData): (r: Result<RecipeData, RecipeError>)
    ensures r.Success? <==> IngredientsOk(attrs) && TagsOk(attrs) && CookingTimeOk(attrs) && ImageOk(attrs)
    ensures r.Success? ==> r.value == attrs
    ensures r == Failure(NoIngredients) <==> attrs.ingredients.None? || attrs.ingredients.value == []
    ensures r == Failure(DuplicateIngredients) <==>
              attrs.ingredients.Some? && attrs.ingredients.value != [] && !IngredientsOk(attrs)
    ensures r == Failure(NoTags) <==> IngredientsOk(attrs) && (attrs.tags.None? || attrs.tags.value == [])
    ensures r == Failure(DuplicateTags) <==>
              IngredientsOk(attrs) && attrs.tags.Some? && attrs.tags.value != [] && !TagsOk(attrs)
    ensures r == Failure(BadCookingTime) <==> IngredientsOk(attrs) && TagsOk(attrs) && !CookingTimeOk(attrs)
    ensures r == Failure(NoImage) <==>
              IngredientsOk(attrs) && TagsOk(attrs) && CookingTimeOk(attrs) && !ImageOk(attrs)
    ensures r.Failure? ==> r.error in {NoIngredients, DuplicateIngredients, NoTags, DuplicateTags, BadCookingTime, NoImage}
  {
    if attrs.ingredients.None? || attrs.ingredients.value == [] then Failure(NoIngredients)
    else
      var ids := IngredientIds(attrs.ingredients.value);
      NoDuplicatesIffSetSize(ids);
      if |ids| != |ToSet(ids)| then Failure(DuplicateIngredients)
      else if attrs.tags.None? || attrs.tags.value == [] then Failure(NoTags)
      else
        var tags := attrs.tags.value;
        NoDuplicatesIffSetSize(tags);
        if |tags| != |ToSet(tags)| then Failure(DuplicateTags)
        else if attrs.cookingTime.None? || attrs.cookingTime.value <= 0 then Failure(BadCookingTime)
        else if attrs.image.None? || attrs.image.value == "" then Failure(NoImage)
        else Success(attrs)
  }

  /**
   * The required fields: the declared `ingredients` and `tags` and the model
   * columns `name`, `text` and `cooking_time` (no default). A partial update
   * (PATCH) requires none of them; an absent column keeps its stored value.
   */
  predicate RequiredPresent(a: RecipeData, partial: bool) {
    partial ||
    (a.ingredients.Some? && a.tags.Some? && a.cookingTime.Some? && a.name.Some? && a.text.Some?)
  }

  /**
   * The checks of the fields that are given: every requested ingredient and
   * tag exists, every amount is positive, and the cooking time meets the
   * `min_value` 1 that `MinValueValidator(1)` gives its serializer field.
   */
  predicate FieldsOk(a: RecipeData, ingredients: map<IngredientId, Ingredient>, tags: map<TagId, Tag>) {
    && (a.ingredients.Some? ==> forall k :: 0 <= k < |a.ingredients.value| ==>
          a.ingredients.value[k].id in ingredients && a.ingredients.value[k].amount > 0)
    && (a.tags.Some? ==> forall k :: 0 <= k < |a.tags.value| ==> a.tags.value[k] in tags)
    && (a.cookingTime.Some? ==> a.cookingTime.value >= 1)
  }

  function FirstBadItem(items: seq<IngredientAmount>, ingredients: map<IngredientId, Ingredient>): (r: Option<RecipeError>)
    ensures r.None? <==> forall k :: 0 <= k < |items| ==> items[k].id in ingredients && items[k].amount > 0
    ensures r.Some? ==> r.value in {UnknownIngredient, AmountNotPositive}
  {
    if items == [] then None
    else if items[0].id !in ingredients then Some(UnknownIngredient)
    else if ValidateAmount(items[0].amount).Failure? then Some(AmountNotPositive)
    else
      var rest := FirstBadItem(items[1..], ingredients);
      assert forall k :: 1 <= k < |items| ==> items[k] == items[1..][k - 1];
      rest
  }

  /**
   * `is_valid()` of the recipe serializer: the field checks (each nested
   * ingredient id must name an ingredient and pass `validate_amount`, each
   * tag id must name a tag, the cooking time must be at least 1, and the
   * required fields must be present unless the update is partial) and then
   * `validate`. So outside a partial update, `validate` never sees a missing
   * ingredient list, tag list or cooking time, nor a cooking time below 1.
   */
  function IsValid(attrs: RecipeData, ingredients: map<IngredientId, Ingredient>, tags: map<TagId, Tag>, partial: bool)
    : (r: Result<RecipeData, RecipeError>)
    ensures r.Success? <==>
              FieldsOk(attrs, ingredients, tags) && RequiredPresent(attrs, partial)
              && IngredientsOk(attrs) && TagsOk(attrs) && CookingTimeOk(attrs) && ImageOk(attrs)
    ensures r.Success? ==> r.value == attrs
    ensures FieldsOk(attrs, ingredients, tags) && !RequiredPresent(attrs, partial) ==> r == Failure(FieldRequired)
    ensures FieldsOk(attrs, ingredients, tags) && RequiredPresent(attrs, partial) ==> r == Validate(attrs)
    ensures !FieldsOk(attrs, ingredients, tags) ==>
              r.Failure? && r.error in {UnknownIngredient, AmountNotPositive, UnknownTag, CookingTimeBelowMin}
    ensures r == Failure(CookingTimeBelowMin) ==> attrs.cookingTime.Some? && attrs.cookingTime.value < 1
    ensures !partial && r == Failure(NoIngredients) ==> attrs.ingredients == Some([])
    ensures !partial && r == Failure(NoTags) ==> attrs.tags == Some([])
    ensures r == Failure(BadCookingTime) ==> partial && attrs.cookingTime.None?
  {
    var bad := if attrs.ingredients.Some? then FirstBadItem(attrs.ingredients.value, ingredients) else None;
    if bad.Some? then Failure(bad.value)
    else if attrs.tags.Some? && exists k :: 0 <= k < |attrs.tags.value| && attrs.tags.value[k] !in tags then
      Failure(UnknownTag)
    else if attrs.cookingTime.Some? && attrs.cookingTime.value < 1 then Failure(CookingTimeBelowMin)
    else if !RequiredPresent(attrs, partial) then Failure(FieldRequired)
    else Validate(attrs)
  }

  /**
   * On create and PUT, a request that leaves out a list or the cooking time
   * is refused as a missing required field before `validate` runs.
   */
  lemma RequiredBeforeValidate(attrs: RecipeData, ingredients: map<IngredientId, Ingredient>, tags: map<TagId, Tag>)
    requires FieldsOk(attrs, ingredients, tags)
    requires attrs.ingredients.None? || attrs.tags.None? || attrs.cookingTime.None?
    ensures IsValid(attrs, ingredients, tags, false) == Failure(FieldRequired)
  {
  }

  /**
   * A cooking time below 1 is refused by the field's `min_value` in every
   * mode, PATCH included, once the nested ingredients and the tags pass.
   */
  lemma CookingTimeMinInEveryMode(attrs: RecipeData, ingredients: map<IngredientId, Ingredient>, tags: map<TagId, Tag>, partial: bool)
    requires attrs.cookingTime.Some? && attrs.cookingTime.value < 1
    requires attrs.ingredients.Some? ==> forall k :: 0 <= k < |attrs.ingredients.value| ==>
               attrs.ingredients.value[k].id in ingredients && attrs.ingredients.value[k].amount > 0
    requires attrs.tags.Some? ==> forall k :: 0 <= k < |attrs.tags.value| ==> attrs.tags.value[k] in tags
    ensures IsValid(attrs, ingredients, tags, partial) == Failure(CookingTimeBelowMin)
  {
  }

  // ---------------------------------------------------------------- subscriptions

  /** The recipes of `author`, in the order of the listing. */
  function AuthorRecipes(rs: seq<Recipe>, author: UserId): (r: seq<Recipe>)
    ensures forall x :: x in r <==> x in rs && x.author == author
    ensures SubseqOf(r, rs)
  {
    FilterIsSubseq(rs, (x: Recipe) => x.author == author);
    Filter(rs, (x: Recipe) => x.author == author)
  }

  /**
   * `SubscriptionSerializer.get_recipes`: the author's recipes, cut to the
   * first `int(recipes_limit)` when the parameter is a digit string, all of
   * them otherwise; always a prefix of the author's recipes.
   */
  function GetRecipes(rs: seq<Recipe>, author: UserId, recipesLimit: Option<string>): (r: seq<Recipe>)
    ensures r <= AuthorRecipes(rs, author)
    ensures recipesLimit.Some? && IsDigits(recipesLimit.value) ==>
              |r| == if ParseDigits(recipesLimit.value) < |AuthorRecipes(rs, author)|
                     then ParseDigits(recipesLimit.value) else |AuthorRecipes(rs, author)|
    ensures !(recipesLimit.Some? && IsDigits(recipesLimit.value)) ==> r == AuthorRecipes(rs, author)
  {
    var recipes := AuthorRecipes(rs, author);
    if recipesLimit.Some? && IsDigits(recipesLimit.value) then
      var limit := ParseDigits(recipesLimit.value);
      if limit < |recipes| then recipes[..limit] else recipes
    else recipes
  }

  /** `recipes_limit=0` gives no recipes. */
  lemma GetRecipesZero(rs: seq<Recipe>, author: UserId)
    ensures GetRecipes(rs, author, Some("0")) == []
  {
    assert IsDigits("0");
    assert ParseDigits("0") == 0 by {
      assert "0"[..0] == "";
    }
  }

  /** `recipes_limit=-1` is not a digit string and is ignored. */
  lemma GetRecipesNegativeIgnored(rs: seq<Recipe>, author: UserId)
    ensures GetRecipes(rs, author, Some("-1")) == AuthorRecipes(rs, author)
  {
    assert !IsDigit('-');
  }

  /**
   * On a newest-first listing the truncated list is the author's most recent
   * recipes: nothing left out is newer than anything kept.
   */
  lemma GetRecipesMostRecent(rs: seq<Recipe>, author: UserId, recipesLimit: Option<string>)
    requires NewestFirst(rs)
    ensures var all, r := AuthorRecipes(rs, author), GetRecipes(rs, author, recipesLimit);
      && NewestFirst(r)
      && forall i, j :: 0 <= i < |r| <= j < |all| ==> r[i].createdAt >= all[j].createdAt
  {
    var all := AuthorRecipes(rs, author);
    NewestFirstSubseq(all, rs);
  }

  datatype SubscriptionError = SelfSubscription | AlreadySubscribed

  /** `validate_author`: nobody may follow themselves. */
  function ValidateAuthor(user: UserId, author: UserId): (r: Result<UserId, SubscriptionError>)
    ensures r.Success? <==> user != author
    ensures r.Success? ==> r.value == author
    ensures r.Failure? ==> r.error == SelfSubscription
  {
    if user == author then Failure(SelfSubscription) else Success(author)
  }

  /** A (user, author) row already exists. */
  predicate Subscribed(subs: seq<Subscription>, user: UserId, author: UserId) {
    exists s :: s in subs && s.user == user && s.author == author
  }

  /** `SubscriptionSerializer.validate`: an existing (user, author) pair is rejected. */
  function ValidateSubscription(subs: seq<Subscription>, user: UserId, author: UserId): (r: Result<UserId, SubscriptionError>)
    ensures r.Success? <==> !Subscribed(subs, user, author)
    ensures r.Failure? ==> r.error == AlreadySubscribed
  {
    if Subscribed(subs, user, author) then Failure(AlreadySubscribed) else Success(author)
  }

  /**
   * `is_valid()` of the subscription serializer: the field check
   * `validate_author` first, then `validate`. Following oneself is refused
   * whatever the table holds.
   */
  function SubscriptionIsValid(subs: seq<Subscription>, user: UserId, author: UserId): (r: Result<UserId, SubscriptionError>)
    ensures r.Success? <==> user != author && !Subscribed(subs, user, author)
    ensures user == author ==> r == Failure(SelfSubscription)
    ensures user != author && Subscribed(subs, user, author) ==> r == Failure(AlreadySubscribed)
  {
    var a := ValidateAuthor(user, author);
    if a.Failure? then Failure(a.error) else ValidateSubscription(subs, user, a.value)
  }

  /** A JSON value of a serialized representation. */
  datatype Json =
    | JNull
    | JBool(b: bool)
    | JInt(i: int)
    | JStr(s: string)
    | JList(items: seq<Json>)
    | JObject(fields: map<string, Json>)

  /**
   * `SubscriptionSerializer.to_representation`: the author's user fields are
   * merged in (overriding), the `author` key is dropped, and `recipes_count`
   * is always present (0 when missing).
   */
  method ToRepresentation(base: map<string, Json>, authorData: map<string, Json>) returns (representation: map<string, Json>)
    ensures "author" !in representation && "recipes_count" in representation
    ensures representation.Keys == (base.Keys + authorData.Keys - {"author"}) + {"recipes_count"}
    ensures forall k :: k in authorData && k != "author" ==> representation[k] == authorData[k]
    ensures forall k :: k in base && k !in authorData && k != "author" ==> representation[k] == base[k]
    ensures "recipes_count" !in base && "recipes_count" !in authorData ==> representation["recipes_count"] == JInt(0)
  {
    representation := base;
    representation := representation + authorData;
    representation := representation - {"author"};
    representation := representation["recipes_count" :=
      if "recipes_count" in representation then representation["recipes_count"] else JInt(0)];
  }
}
