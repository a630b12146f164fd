# LookMatch wardrobe backend — a verified model of the outfit core

LookMatch is a wardrobe service. A user registers garments (*prendas*) with a
category, a style and colours, and the backend composes them into *outfits*.
It also builds *stacks*: plans of one outfit per day for up to 30 days, each
outfit dated and labelled with a Spanish weekday. This project models, in
Dafny, the core of that backend:

- **the generation engine** of `outfit.service.js`:
  - the style/category grouping;
  - the availability check and the upper-bound formula;
  - the outfit composer, with both of its branches;
  - the same-style composer;
  - the accept-and-deduplicate loop, with the weekday labels and the writes it performs;
  - the day-name lookups;
  - the colour table;
  - the colour-preferring selection of the random outfit;
  - the day filter of the outfit listing;
- **the store transitions** of `Outfit.create`, `createUnique` and `deleteUserStacks`. They are modelled over sets of stack rows, outfit rows and outfit–item links;
- **`createStack`**, in the service and in the controller: input checks, category normalisation, effect order, and the error→status mapping;
- **the validators and DTO normalisers**: stack, outfit, user, garment and colour; the password, phone and e-mail checks of the user handlers and service; and `actualizarCampo` of the garment service.

Modelling conventions:

- **Random choices.** Every `Math.floor(Math.random() * n)` is an oracle `nat` read modulo `n`, which reaches exactly the indices the source can reach. Every `Math.random() > x` is an oracle boolean. The composer's choices are bundled in `Composer.Draw`.
- **The accept loop** runs over a finite stream of such draws. When the stream ends before the target count is met, the run ends in `Spinning`, where the source would go on looping; the outfits accepted up to then are already written, as in the source.
- **Dates** are integer day numbers, with weekday `n % 7` (day 0 is a Sunday).
- **Request values** are `Js.JsVal` (undefined, null, boolean, integer, string, plain object), with JavaScript truthiness and `parseInt` on strings and on integers written in plain decimal: `parseInt(v, 10)` as `Js.ParseInt`, and `parseInt(v)` with no radix, which reads a `0x`/`0X` prefix as base 16, as `Js.ParseIntAuto`.
- **String lengths** that `length` or Joi's `min`/`max` measure are counted in UTF-16 code units (`Js.Utf16Length`).
- **Foreign calls are parameters.** The clock, `bcrypt.compare` and `bcrypt.hash`, and Joi's `email()` are passed in.
- **The deduplication key** is the outfit's item ids, sorted. The source sorts them as strings; the model sorts them as numbers. Only key equality matters, and for either order two keys are equal exactly when the outfits have the same multiset of ids (`OutfitKey.KeyEqualIff`).

Behaviours of the code worth knowing:

- **The first stack outfit is dated the day after the stack starts.** The set size is read after the insertion.
- **Dates repeat after seven days.** The k-th outfit is dated `start + k % 7`, so a 30-day stack has at most seven distinct dates.
- **`maxUniquePossible` is not an upper bound on the outfits that can be reached.** The loop can therefore run forever (`Scenarios.OnePieceInventorySpins`). In the other direction, two outfits can be reachable where the bound says one (`Scenarios.OuterwearDoublesOutfits`).
- **The controller ignores `statusCode`** when it maps a service error to a status (see Findings).
- **The controller's default categories are always rejected.** Only `zapatos` is set, and that is not a valid combination.
- **The inventory is not filtered by the garments' active status.**
- **The inventory comes back ordered by category** (`ORDER BY p.id_categoria`), which decides which garment a draw picks; rows of one category keep table order.
- **A run that never finishes still writes.** Each accepted outfit and its links are stored inside the loop, so a spinning request leaves the stack with the outfits accepted so far (`Generator.SpinningCommitted`).

## Model

| member | source | states |
|---|---|---|
| Garments.Fetch | src/models/prenda.model.js:64-96 | the inventory is exactly the user's garments that have a main colour, restricted to the style when one is given, ordered by category |
| Garments.OrderByCategory | src/models/prenda.model.js:92 | `ORDER BY p.id_categoria` gives a list sorted by category with the same garments |
| Garments.InsertKeepsCategoryOrder | src/models/prenda.model.js:92 | inserting a garment places it after the garments of its own category and moves no other garment within its category |
| Garments.OrderKeepsCategoryOrder | src/models/prenda.model.js:92 | within each category the ordered list keeps the input's order |
| Garments.OrderedUnchanged | src/models/prenda.model.js:92 | a list already ordered by category is left as it is |
| Garments.FetchCategoryOrder | src/models/prenda.model.js:64-96 | within each category the query returns the selected rows in table order |
| Garments.FetchIgnoresStatus | src/models/prenda.model.js:81-96 | an inactive garment of the user is still part of the inventory |
| Garments.FetchEverything | src/models/prenda.model.js:81-96 | a table holding only the user's coloured garments of the style, already ordered by category, is fetched unchanged |
| Availability.GroupByCategoryAndStyle | src/services/outfit.service.js:301-325 | every style appears once in the grouping, and a style has a bucket exactly when it is listed |
| Availability.GroupingStyles | src/services/outfit.service.js:301-325 | a style has an entry exactly when some garment has that style, whatever its category id |
| Availability.GroupingBucket | src/services/outfit.service.js:301-325 | the (style, category) bucket is the in-order subsequence of the garments of that style and category |
| Availability.GroupingPlacesItem | src/services/outfit.service.js:304-321 | each garment's style gets an entry, and the garment lands in the bucket of its own category only |
| Availability.Scan | src/services/outfit.service.js:345-358 | the scan lists, without repeats, exactly the styles it visits that have shoes and either a top and a bottom or a one-piece |
| Availability.CheckAvailability | src/services/outfit.service.js:334-364 | a style is compatible exactly when it has a shoe and (a top and a bottom, or a one-piece); generation is possible iff some style is compatible; each `tiene*` flag looks only at compatible styles |
| Availability.BucketsCompatibleIff | src/services/outfit.service.js:346-350 | the bucket test and the inventory-level compatibility definition agree for every style |
| Availability.CompatibleStyles | src/services/outfit.service.js:345-351 | the styles the scan keeps are exactly the compatible ones |
| Availability.CompatibleFlag | src/services/outfit.service.js:352-356 | a `tiene*` flag is set exactly when some compatible style has a garment of that category |
| Availability.SomeCompatibleStyle | src/services/outfit.service.js:361 | the list of compatible styles is non-empty exactly when some garment's style is compatible |
| Availability.CalculateMaxOutfits | src/services/outfit.service.js:366-380 | the bound is zero exactly when there are no shoes, or there are neither one-pieces nor a top-and-bottom pair |
| Availability.MaxOutfitsPositiveWhenGenerable | src/services/outfit.service.js:366-380 | when some style is compatible the bound is at least one |
| Availability.CompatibleStyleCounts | src/services/outfit.service.js:346-350 | a compatible style implies shoes, and a one-piece or a top-and-bottom pair, in the whole inventory |
| Availability.CalculateMaxOutfitsByStyles | src/services/outfit.service.js:382-403 | a list in which no style has shoes has bound 0 |
| Availability.ByStylesAppend | src/services/outfit.service.js:383-402 | the `reduce` is additive: the bound of two lists joined is the sum of their bounds |
| Availability.ShoelessAddNothing | src/services/outfit.service.js:392 | styles without shoes add nothing wherever they stand: dropping them from any list leaves the bound unchanged |
| Availability.ConsistentContribution | src/services/outfit.service.js:394-399 | for a style whose category set matches its garments, the contribution is one-pieces plus tops×bottoms |
| Availability.ByStylesAgreesOnOneStyle | src/services/outfit.service.js:366-403 | on a single style with shoes, the overall bound is shoes × the per-style bound × the outerwear factor |
| Composer.Pick | src/services/outfit.service.js:94 | a random pick is an element of the list |
| Composer.PickReachesEveryIndex | src/services/outfit.service.js:94 | every index of the list can be drawn |
| Composer.EligibleStyles | src/services/outfit.service.js:79-87 | the eligible styles are exactly the grouped styles whose buckets meet the requested categories |
| Composer.OnePieceStyles | src/services/outfit.service.js:57-60 | the one-piece branch's styles are exactly those with a one-piece (and a shoe when shoes are wanted) |
| Composer.EligibleIff | src/services/outfit.service.js:57-87 | both bucket tests agree with their inventory-level definitions |
| Composer.EligibleStylesIff | src/services/outfit.service.js:79-87 | the eligible-style list matches the inventory-level definition |
| Composer.GenerateOutfit | src/services/outfit.service.js:42-132 | the composer fails only with the no-compatible-styles message, and an outfit it returns is non-empty |
| Composer.GenerateOutfitOutcome | src/services/outfit.service.js:55-91 | the general branch throws exactly when no style is eligible; the one-piece branch returns null exactly when no style has the pieces |
| Composer.AssembleMembers | src/services/outfit.service.js:94-129 | every assembled garment comes from the inventory and has the chosen style |
| Composer.AssembleCounts | src/services/outfit.service.js:99-129 | an assembled outfit has one shoe when shoes are wanted and none otherwise; at most one outerwear item, and only if wanted; and one one-piece, or a top and a bottom, or no body |
| Composer.GeneralOutfitWellFormed | src/services/outfit.service.js:79-131 | an outfit of the general branch has a single style, inventory garments, and the category counts above |
| Composer.OnePieceOutfitForm | src/services/outfit.service.js:55-76 | the one-piece branch returns the chosen style's first shoe (if wanted) followed by its first one-piece |
| Composer.OnePieceIgnoresDraws | src/services/outfit.service.js:55-76 | the one-piece branch gives the same result for every draw, so one style yields one outfit |
| Composer.First | src/services/outfit.service.js:67-70 | the first-element pick exists exactly when the style has a garment of the category |
| Composer.OfCategory | src/services/outfit.service.js:268-272 | a category filter keeps exactly the garments of that category |
| Composer.GenerateOutfitFromSameStyle | src/services/outfit.service.js:266-299 | a same-style outfit is non-empty and made of the given garments |
| Composer.SelectOneStyle | src/services/outfit.service.js:268-272 | on a one-style list, a style-and-category selection is the category filter |
| Composer.OneStyleBuckets | src/services/outfit.service.js:301-325 | a one-style list groups into that one style, with buckets equal to the category filters |
| Composer.SameStyleOnBuckets | src/services/outfit.service.js:274-298 | the same-style composer is the general assembly on the category buckets with every category wanted |
| Composer.GeneralWithOneStyle | src/services/outfit.service.js:79-131 | with a single eligible style, the general branch returns that style's assembly |
| Composer.SameStyleAgreesWithGenerateOutfit | src/services/outfit.service.js:42-132 | on a one-style inventory, the same-style composer and the general composer with every category wanted give the same outfit for the same draw |
| OutfitKey.KeyFacts | src/services/outfit.service.js:205 | the key is sorted and holds the same ids as the outfit |
| OutfitKey.SortedUnique | src/services/outfit.service.js:205 | two sorted lists with the same elements are equal, which is why keys depend only on ids |
| OutfitKey.KeyEqualIff | src/services/outfit.service.js:205 | two outfits have the same key exactly when they have the same multiset of ids |
| OutfitKey.KeyIgnoresOrder | src/services/outfit.service.js:205 | reordering an outfit does not change its key |
| Generator.FilterByCategories | src/services/outfit.service.js:157-166 | with no category requested the inventory passes whole; otherwise exactly its garments of a requested category pass |
| Generator.FilterByCategoriesKeepsWanted | src/services/outfit.service.js:164-166 | an inventory of requested categories is kept unchanged, in order |
| Generator.NewKeyKeepsDistinct | src/services/outfit.service.js:207-208 | adding an outfit with an unseen key keeps the accepted keys pairwise distinct |
| Generator.Goal | src/services/outfit.service.js:194 | the loop target is at most the bound and at most the count, and at least one when both are positive |
| Generator.Candidates | src/services/outfit.service.js:196-203 | each draw yields the outfit the composer returns for it, or nothing |
| Generator.Kept | src/services/outfit.service.js:194-234 | the loop keeps the outfits already accepted, accepts at most the target and at most one per candidate |
| Generator.AcceptLoop | src/services/outfit.service.js:194-234 | the loop ends only with exactly the target number of outfits, extending the ones already accepted; otherwise fewer than the target were accepted |
| Generator.Accept | src/services/outfit.service.js:194-234 | a run of the loop on the draws ends exactly when the outfits accepted from them reach the target, and then returns them |
| Generator.KeptExtends | src/services/outfit.service.js:194-234 | more draws never undo an acceptance: what a stream accepts is a prefix of what a longer stream accepts, and a completed run is unchanged by more draws |
| Generator.AcceptedExtends | src/services/outfit.service.js:194-234 | the same, for the outfits the draws compose |
| Generator.KeptDistinct | src/services/outfit.service.js:205-208 | the loop accepts only unseen keys, so the accepted outfits have pairwise distinct keys |
| Generator.AcceptDistinct | src/services/outfit.service.js:194-234 | the same, for the candidates the draws compose, completed or not |
| Generator.AcceptSkips | src/services/outfit.service.js:198-207 | a turn whose candidate is missing or already seen accepts nothing |
| Generator.AcceptTakes | src/services/outfit.service.js:207-208 | a turn whose candidate is unseen accepts it |
| Generator.KeptProduces | src/services/outfit.service.js:194-234 | every accepted outfit is one of the candidates |
| Generator.AcceptProduces | src/services/outfit.service.js:194-234 | every accepted outfit is what the composer returned for one of the draws |
| Generator.DayName | src/services/outfit.service.js:229 | the read-back day label is the English weekday name of the assigned date |
| Generator.Persist | src/services/outfit.service.js:215-232 | storing k outfits adds k outfit ids and leaves the stacks alone |
| Generator.PersistStored | src/services/outfit.service.js:210-232 | each stored outfit reads back as its expected row: owner, style of its first garment, stack, and date |
| Generator.PersistLast | src/services/outfit.service.js:210-232 | storing one more outfit appends its expected row |
| Generator.StoredRowsAt | src/services/outfit.service.js:210-232 | the k-th expected row is that of the k-th accepted outfit |
| Generator.SavedIsStoredRow | src/services/outfit.service.js:210-229 | the row `Outfit.create` inserts for the n-th outfit is its expected row |
| Generator.AssignedDate | src/services/outfit.service.js:210-221 | the weekday name given to the n-th outfit turns into the date n % 7 days after the start, and that date has that weekday |
| Generator.WeekShift | src/models/outfit.model.js:44-46 | going forward from the start's weekday to the weekday n days on takes n % 7 days |
| Generator.Precheck | src/services/outfit.service.js:145-188 | the checks let the inventory through exactly when it can compose an outfit |
| Generator.Produce | src/services/outfit.service.js:190-254 | a run that ends fails with the no-valid-outfits message and no writes, or succeeds with the target number of distinct outfits, the bound, no repeats, and the requested count and categories; a run that does not end has written one outfit row per outfit accepted, fewer than the target |
| Generator.GenerateAndGetOutfits | src/services/outfit.service.js:134-263 | a failure leaves the store unchanged; a success reports consistent counts and never reports repeats; a spinning run has written one outfit row per accepted outfit; no run touches the stacks |
| Generator.PersistWrites | src/services/outfit.service.js:207-227 | with a stack id the writes delete nothing: every read-back row is in the store, linked to each of its garments with an id |
| Generator.SpinningCommitted | src/services/outfit.service.js:194-227 | a run that does not end has written the outfits accepted before the draws ran out, fewer than the target, pairwise different, each with the row, date and day name a finished run gives it, and with a stack id each row is in the store |
| Generator.GenerateFailures | src/services/outfit.service.js:145-188 | an empty fetch, an empty category filter and an incompatible inventory fail with their own messages, in that order |
| Generator.GenerateCountOutcome | src/services/outfit.service.js:194-241 | once an outfit can be composed, a non-positive count fails and a positive count never fails |
| Generator.ProduceCount | src/services/outfit.service.js:194-241 | the same, for the loop and the writes |
| Generator.SuccessStored | src/services/outfit.service.js:194-254 | a successful run returned exactly the rows of the outfits the loop accepted |
| Generator.StoredDay | src/services/outfit.service.js:210-221 | the k-th stored outfit (0-based) is dated (k+1) % 7 days after the start, belongs to the user, and its label translates to the weekday k+1 days on |
| Generator.DayLabel | src/services/outfit.service.js:211-213 | the English name of the k-th date translates back to the Spanish label of weekday start+k+1 |
| Generator.GeneratedOutfit | src/services/outfit.service.js:194-254 | each returned outfit is dated and labelled as above and is what the composer returned for one of the draws |
| Generator.GeneratedKeysDistinct | src/services/outfit.service.js:205-250 | the returned outfits have pairwise distinct keys |
| Generator.AcceptedNonEmpty | src/services/outfit.service.js:203 | no empty outfit is ever accepted |
| Days.GetEnglishDay | src/services/outfit.service.js:31-38 | the English key is returned exactly when some Spanish name matches case-insensitively, and it is that name's key |
| Days.GetEnglishDayRoundTrip | src/services/outfit.service.js:5-38 | looking up any casing of a Spanish day name gives back its own English key |
| Days.LoweredNamesDistinct | src/services/outfit.service.js:5-13 | the Spanish names stay distinct once lower-cased, so the lookup is unambiguous |
| Days.LookupSpanish | src/services/outfit.service.js:699 | the Spanish name is found exactly when the key is in the table, and it is that key's name |
| Days.TranslateLabel | src/services/stack.service.js:118 | a label whose lower-cased form is an English key becomes that key's Spanish name; any other label is returned unchanged |
| Days.TranslateEnglishName | src/services/stack.service.js:118 | the English name of every weekday translates to its Spanish name |
| Days.DayFilter | src/services/outfit.service.js:664-671 | the day filter applies exactly when the lower-cased request is an English key, and it uses that key |
| Days.SpanishNameIsNoFilter | src/services/outfit.service.js:664-671 | a Spanish day name applies no filter at all |
| Days.DecorateRow | src/services/outfit.service.js:696-700 | a row is a stack row exactly when its stack id is truthy; its day is translated when the English key is known and kept otherwise |
| Days.DiaSemanaEn | src/services/outfit.service.js:635-639 | the day column is the lower-cased English name of the assigned date's weekday, or `no asignado` |
| Days.DecoratedDay | src/services/outfit.service.js:634-700 | the listing labels a dated outfit with the Spanish name of its weekday, the same label the stack responses give it, and an undated one `no asignado` |
| Colors.GetCombinationColors | src/services/outfit.service.js:406-408 | a known colour gets its own row of suggestions, and any other colour that is not an inherited property name gets the list of every base colour |
| Colors.SuggestionsAreBaseColors | src/services/outfit.service.js:15-28 | every suggested colour is itself a base colour of the table |
| Colors.KeysDistinct | src/services/outfit.service.js:15-28 | the table's colours are pairwise distinct |
| RandomOutfit.MissingCategories | src/services/outfit.service.js:428-430 | the missing-category list names, in order, exactly the basic categories the inventory lacks |
| RandomOutfit.MissingIff | src/services/outfit.service.js:428-438 | the selection fails exactly when some basic category is empty |
| RandomOutfit.MissingNamesExact | src/services/outfit.service.js:428-430 | a basic category is named in the list exactly when it has no garment |
| RandomOutfit.Candidates | src/services/outfit.service.js:445-457 | the candidates are garments of the category; they exist exactly when the category is non-empty; when a colour is requested and matched, all of them match it |
| RandomOutfit.Draw1 | src/services/outfit.service.js:459-460 | the drawn garment is one of the candidates |
| RandomOutfit.SelectItems | src/services/outfit.service.js:428-461 | a failed selection means a basic category is empty; a successful one is a top, a bottom and a shoe from the inventory, in that order |
| RandomOutfit.IncludesColorIff | src/services/outfit.service.js:474-478 | the requested colour is reported as included exactly when none was requested or some basic garment matches it |
| Store.OutfitCreate | src/models/outfit.model.js:5-67 | a non-string style, or a truthy stack id on which the radix-less `parseInt` gives NaN, is refused before any change; otherwise one new row is inserted with the user, style, that parsed stack and assigned date |
| Store.HexStackId | src/models/outfit.model.js:10-55 | the stack id `"0x"` is refused as not a number, and `"0x1A"` is stored as stack 26 |
| Store.StacklessCreateReplaces | src/models/outfit.model.js:18-56 | a stack-less create removes the user's previous stack-less outfits and their links, touches nothing else, and leaves exactly one stack-less outfit |
| Store.StackCreateAddsOne | src/models/outfit.model.js:18-56 | a create with a stack id deletes nothing and adds exactly one fresh outfit row |
| Store.CreatedRow | src/models/outfit.model.js:51-56 | the inserted row carries the next id, the user, the style, the stack (none for 0) and the assigned date |
| Store.FechaAsignada | src/models/outfit.model.js:36-49 | a date is assigned exactly when the day is one of the seven Spanish names and a start is given; it is the first date on or after the start with that weekday |
| Store.DiffDias | src/models/outfit.model.js:44-46 | the offset lies in 0..6 and lands on the requested weekday |
| Store.DayIndex | src/models/outfit.model.js:38-39 | the index is found exactly for the seven Spanish names, and it names the day |
| Store.CreateUnique | src/models/outfit.model.js:70-99 | the user's stack-less rows are replaced by one new dateless row, and the links are left as they were |
| Store.CreateUniqueLeavesLinks | src/models/outfit.model.js:76-80 | links of the deleted stack-less outfits survive, so they point at outfits that no longer exist |
| Store.StackCreate | src/services/stack.service.js:53-58 | the stack insert adds one row with the user and the span, and changes no outfit or link |
| Store.StackCreateFresh | src/services/stack.service.js:53-58 | the new stack row is fresh and the store stays well-formed |
| Store.DeleteUserStacks | src/services/stack.service.js:165-207 | exactly the user's stacks and their outfits are removed, and the count of deleted stacks is returned |
| Store.DeleteUserStacksCascade | src/services/stack.service.js:170-196 | the cascade also removes exactly those outfits' links, keeps stack-less outfits and other users' stacks, and leaves the user with no stack |
| Store.DeleteUserStacksIdempotent | src/services/stack.service.js:165-207 | deleting twice is the same as deleting once, and the second call reports zero |
| StackDtos.Normalise | src/dto/stack.dto.js:10-16 | `zapatos` is false exactly for an explicit `false`; the other four flags are their values' truthiness |
| StackDtos.NormaliseEncode | src/dto/stack.dto.js:10-16 | encoding a normalised policy and normalising again gives it back |
| StackDtos.NormaliseIdempotent | src/dto/stack.dto.js:10-16 | normalising the normalised flags changes nothing |
| StackDtos.NormaliseNoFlags | src/dto/stack.dto.js:10-16 | with no flags, only `zapatos` is set |
| StackDtos.ReadFlags | src/dto/stack.dto.js:2 | reading `categoriesUsed` fails only on `null`; an absent or primitive value reads as no flags |
| StackDtos.NewStackDto | src/dto/stack.dto.js:1-18 | missing stack data throws; otherwise ids and dates are copied, the style defaults to null, and the categories are normalised |
| StackDtos.StackDtoStable | src/dto/stack.dto.js:1-18 | building the DTO again from its own style and categories gives the same DTO |
| StackService.EmptyInventoryMessage | src/services/stack.service.js:67-69 | the empty-inventory message names the style when one is given |
| StackService.Caught | src/services/stack.service.js:150-161 | an error with a status code gets the styled-items advice; one without whose message has the shortage phrase becomes a 400 with the more-items advice; any other is rethrown unchanged |
| StackService.Views | src/services/stack.service.js:116-131 | the response outfits are the stored ones, in order, and the mapping fails exactly when one lacks a day label |
| StackService.Prepared | src/services/stack.service.js:45-58 | the new stack belongs to the user and spans `days` days from today |
| StackService.Respond | src/services/stack.service.js:81-139 | a spinning generator hangs; a generator failure is rethrown through the catch with its message; a success is answered with the stack DTO and the generator's figures, unchanged |
| StackService.CreateStack | src/services/stack.service.js:19-163 | bad inputs are refused before the store is touched; an empty inventory is a 400 with the styled-items advice; otherwise the generator run is answered |
| StackService.InputChecksFirst | src/services/stack.service.js:22-33 | the three input checks run in order, each with its own message, and leave the store unchanged |
| StackService.PreparedStore | src/services/stack.service.js:45-58 | after the deletion and the insert, the user has exactly one stack, with no outfits, and other users' stacks remain |
| StackService.CreateOnCleared | src/services/stack.service.js:53-58 | on a store where the user has no stack, the insert leaves the user with exactly the new, empty stack |
| StackService.EmptyInventoryLeavesEmptyStack | src/services/stack.service.js:45-80 | an empty-inventory failure leaves the user with one empty stack spanning the request |
| StackService.GeneratorFailsWithItsMessages | src/services/outfit.service.js:145-241 | every generator failure carries one of its five messages |
| StackService.GeneratorFailurePassesMessage | src/services/stack.service.js:99-102 | a generator failure is rethrown with the generator's message, and it gets status 400 exactly when the message has the shortage phrase |
| StackService.AnsweredStack | src/services/stack.service.js:45-139 | an answered request reports the new stack's id, user, span, style and normalised categories, and the user has exactly that stack |
| StackService.RespondStack | src/services/stack.service.js:110-139 | the answered stack DTO describes the stack that was inserted, and its categories are the ones the generator used |
| StackService.AnsweredOutfits | src/services/stack.service.js:110-139 | an answer has between 1 and `days` outfits, without repeats; the k-th is dated (k+1) % 7 days on and labelled with that weekday in Spanish |
| StackController.OrDefault | src/controllers/stack.controller.js:68-74 | a destructuring default applies exactly to an undefined value |
| StackController.Destructured | src/controllers/stack.controller.js:11-17 | null categories make the destructuring throw; absent ones take the default object; given ones take the per-flag defaults |
| StackController.StyleRejection | src/controllers/stack.controller.js:21-42 | a present style passes exactly when it is one of the four allowed strings as written; otherwise the answer is a 400 naming it |
| StackController.StyleCheckAllows | src/controllers/stack.controller.js:21-42 | the first style check lets through exactly no style or an allowed one |
| StackController.ProcessedStyle | src/controllers/stack.controller.js:51-65 | a truthy string style is replaced by its trimmed text, and a falsy style becomes null |
| StackController.CheckedStyleUntrimmed | src/controllers/stack.controller.js:51-65 | an allowed style is unchanged by trimming and never empty, so the second style check never fires |
| StackController.AllowedLackY | src/controllers/stack.controller.js:30-35 | no allowed style contains `y`, so no empty-inventory message can contain the shortage phrase |
| StackController.Validate | src/controllers/stack.controller.js:21-114 | the request passes exactly when it is admissible; null categories throw; every other failure is a 400 |
| StackController.RejectionOrder | src/controllers/stack.controller.js:21-114 | the checks run in the order style, days, shoes, combination, each with its own answer |
| StackController.InadmissibleRejected | src/controllers/stack.controller.js:21-118 | an inadmissible request changes nothing and is answered 400, or with the catch block's answer for null categories |
| StackController.DefaultCategoriesRejected | src/controllers/stack.controller.js:11-17 | with absent or empty categories, the request is always refused as an invalid combination |
| StackController.NullCategoriesServerError | src/controllers/stack.controller.js:68-74 | null categories end in a 500 |
| StackController.NullDestructureCaught | src/controllers/stack.controller.js:144-157 | the destructuring error is answered 500 |
| StackController.ServiceInputsAccepted | src/controllers/stack.controller.js:126-138 | an admissible request passes the service's own input checks |
| StackController.PassedCategoriesDress | src/controllers/stack.controller.js:77-114 | the categories of an admissible request include shoes and either a top and a bottom or a one-piece |
| StackController.ServiceIgnoresPreDeletion | src/controllers/stack.controller.js:116-123 | the controller's own deletion makes no difference to what the service does next |
| StackController.DeleteFailureSwallowed | src/controllers/stack.controller.js:116-123 | a failing deletion gives the same answer as a successful one |
| StackController.Forward | src/controllers/stack.controller.js:126-157 | an answered service run is a 201 with its result; a failure goes to the catch block; a hanging run gets no reply |
| StackController.CatchAsWritten | src/controllers/stack.controller.js:144-157 | an error is a 400 exactly when its message has the shortage phrase; every other error is a 500, whatever its status code |
| StackController.CatchIntended | src/controllers/stack.controller.js:144-157 | an error carrying a status code is answered with that status, message and advice; any other error is answered as written |
| StackController.CreatedAnswersRequest | src/controllers/stack.controller.js:4-143 | a 201 answer describes a stack for this user that starts today, spans the requested days, has the requested style and categories, and is the user's only stack |
| StackController.HangingServiceNoReply | src/controllers/stack.controller.js:126-157 | the controller sends no reply exactly when the service never finishes |
| StackController.EmptyInventoryServiceError | src/services/stack.service.js:66-80 | an admissible request on an empty inventory reaches the catch block with the service's 400 error |
| StackController.EmptyInventoryAnswered500 | src/controllers/stack.controller.js:144-157 | as written, that error is answered 500 |
| StackController.EmptyInventoryAnswered400 | src/controllers/stack.controller.js:144-157 | with the intended catch block, it is answered 400 with its own message and advice |
| OutfitDtos.ItemOf | src/dto/outfit.dto.js:9-20 | each item DTO carries the garment's id, category and style |
| OutfitDtos.RowOfItemOf | src/dto/outfit.dto.js:9-20 | the renaming loses nothing: the garment row can be read back from its DTO |
| OutfitDtos.NewOutfitDto | src/dto/outfit.dto.js:1-22 | the outfit fields are copied; the items are empty without garments and otherwise a same-length, same-order mapping |
| OutfitDtos.Find | src/dto/outfit.dto.js:27-31 | the slot holds the first garment of the category, and is empty exactly when there is none |
| OutfitDtos.NewOutfitResponse | src/dto/outfit.dto.js:24-39 | the response keeps the list's length and order, fills each slot with the first garment of its category, and copies the figures |
| OutfitDtos.SlotsFromOutfit | src/dto/outfit.dto.js:26-32 | every slotted garment is from the outfit and sits in its own category's slot |
| OutfitDtos.ComposedOutfitSlots | src/dto/outfit.dto.js:26-32 | for a composed outfit, the slots hold exactly its garments, each in its own category's slot |
| OutfitDtos.WellFormedOnePerCategory | src/services/outfit.service.js:79-131 | a composed outfit has at most one garment per category |
| Prendas.NewRegistrarPrenda | src/dto/prenda.dto.js:1-32 | the style must be one of the five allowed strings, or the error lists them; the colour and path defaults apply; the other fields are copied |
| Prendas.CleanKeepsWord | src/dto/prenda.dto.js:17 | the trimming and quote removal leave a plain word unchanged |
| Prendas.WhitelistClean | src/dto/prenda.dto.js:12-18 | the whitelisted styles have no surrounding white space and no quote, so cleaning has nothing to remove |
| Prendas.PaddedStyleRefused | src/dto/prenda.dto.js:12-15 | every style with surrounding white space or a quote is refused, with the first message |
| Prendas.CleanableStylesRefused | src/dto/prenda.dto.js:12-20 | a whitelisted style sent with a leading space or in quotes cleans to that style, yet is refused: the cleaning repairs nothing |
| Prendas.PaddedCleans | src/dto/prenda.dto.js:17 | trimming and quote removal turn a word with a leading space back into the word |
| Prendas.QuotedCleans | src/dto/prenda.dto.js:17 | trimming and quote removal turn a quoted word back into the word |
| StackController.ModernoOnlyForItems | src/dto/prenda.dto.js:12 | the stack handler's styles are exactly the garment whitelist without `Moderno` |
| Prendas.RemoveQuotes | src/dto/prenda.dto.js:17 | no quote survives, and a string without quotes is unchanged |
| Prendas.RemoveQuotesAppend | src/dto/prenda.dto.js:17 | the global replacement works piece by piece over a concatenation |
| Prendas.RemoveQuotesChar | src/dto/prenda.dto.js:17 | a single character is deleted exactly when it is `"` or `'` |
| Prendas.RemoveQuotesKeepsOthers | src/dto/prenda.dto.js:17 | every character other than a quote is kept, in order |
| Prendas.QuotesStripped | src/dto/prenda.dto.js:17 | a word between quotes of either kind loses exactly the quotes |
| Prendas.NewEditarPrenda | src/dto/prenda.dto.js:35-46 | name, style and secondary colour default to null, and the flag defaults to true |
| Prendas.Renamed | src/services/prenda.service.js:30-33 | a `color_secundario` key is replaced by `id_color_secundario`, with a falsy value turned into null |
| Prendas.ActualizarCampo | src/services/prenda.service.js:19-41 | the update is refused with its message exactly when an id is falsy or the fields are missing or empty |
| Prendas.EditPassesNameAndStyle | src/services/prenda.service.js:35-38 | name and style reach the DTO as sent |
| Prendas.EditSetsActive | src/services/prenda.service.js:35-38 | an edit without a flag sets the garment active |
| Prendas.EditDropsSecondaryColour | src/services/prenda.service.js:30-38 | the DTO never carries a secondary colour |
| Prendas.Coalesce | src/models/prenda.model.js:100-104 | a null parameter keeps the column; any other value replaces it |
| Prendas.SecondaryColourNeverStored | src/models/prenda.model.js:98-115 | as written, the stored secondary colour is unchanged by any edit |
| Prendas.ActualizarColorIntended | src/services/prenda.service.js:30-41 | in the intended chain, the renamed colour key reaches the update |
| Prendas.IntendedColourStored | src/services/prenda.service.js:30-41 | in the intended chain, a colour edit stores the colour and keeps name and style |
| ColorDtos.ValidateColor | src/dto/color.dto.js:3-6 | a colour passes exactly when `hex` is `#` plus six hex digits in either case and `nombre` is a non-empty string of at most 50 UTF-16 code units; both are required |
| ColorDtos.StringField | src/dto/color.dto.js:4-5 | a Joi string passes exactly when it is a non-empty string; missing and non-string values get their own errors |
| ColorDtos.MalformedHexRefused | src/dto/color.dto.js:4 | every non-empty code that does not match the pattern is refused with the pattern violation, whatever the name |
| ColorDtos.ShorthandRefused | src/dto/color.dto.js:4 | every three-digit shorthand `#rgb` is refused, while its expansion `#rrggbb` passes with any valid name |
| ColorDtos.HexCodeRoundTrip | src/dto/color.dto.js:4 | every 24-bit colour has a code the schema accepts, and the code reads back as that colour |
| UsuarioDtos.PasswordErrors | src/controllers/usuario.controller.js:8-17 | the error list is empty exactly for a strong password and holds exactly the messages of the failed rules; the length rule counts UTF-16 code units |
| UsuarioDtos.AstralPasswordLength | src/controllers/usuario.controller.js:9 | a six-character password with two characters outside the Basic Multilingual Plane has length 8 and passes |
| UsuarioDtos.PasswordErrorsInOrder | src/controllers/usuario.controller.js:9-16 | the list is the rule messages in their fixed order, filtered to the failed rules |
| UsuarioDtos.ValidarContrasena | src/controllers/usuario.controller.js:8-21 | the check throws exactly for a weak password, with the failed rules joined by commas |
| UsuarioDtos.OnlySpecialMissing | src/controllers/usuario.controller.js:8-21 | a password lacking only a special character is refused with that one message |
| UsuarioDtos.StrongIsRegisterPassword | src/dto/usuario.dto.js:5 | a password strong for the handler passes the registration schema |
| UsuarioDtos.NarrowWithinBroad | src/dto/usuario.dto.js:5 | the handler's special characters are all special for the schema |
| UsuarioDtos.UnderscoreOnlyBroad | src/dto/usuario.dto.js:5 | `_` is special for the schema but not for the handler |
| UsuarioDtos.UnderscorePasswordGap | src/dto/usuario.dto.js:5 | `Abcdefg1_` passes the schema and is refused by the handler |
| UsuarioDtos.HandlerPhoneRejects | src/controllers/usuario.controller.js:37-39 | the handler refuses a phone exactly when it is not ten digits |
| UsuarioDtos.RegisterPhonePassesHandler | src/dto/usuario.dto.js:6 | every phone the schema accepts passes the handler's check |
| UsuarioDtos.GeneratedCodeAccepted | src/services/usuario.service.js:54 | every code the recovery generator can produce is six digits and passes the code schema |
| UsuarioController.Registrar | src/controllers/usuario.controller.js:24-58 | the schema is checked first, then the password rules; a request passing both registers the e-mail, the hash and the phone with a 201 |
| UsuarioController.RegistrationPhoneMessageUnused | src/controllers/usuario.controller.js:36-39 | the handler's own phone error can never be raised |
| UsuarioController.UnderscorePasswordForwarded | src/controllers/usuario.controller.js:27-30 | an `_`-only password gets past the schema and fails in the handler |
| UsuarioController.Restablecer | src/controllers/usuario.controller.js:146-176 | without a session code the answer is 400; then the password rules on whatever value the body holds (a TypeError for a missing or null password, the pattern messages for a number), then the confirmation; only a strong string confirmed as written stores the new hash and withdraws the code |
| UsuarioController.ValidarContrasenaValue | src/controllers/usuario.controller.js:8-21 | a missing or null password throws reading `length`; a number, boolean or object skips the length rule and fails the pattern rules on its text; only a strong string passes |
| UsuarioController.ValueTextRules | src/controllers/usuario.controller.js:12-16 | the text of a number has digits only, `true`/`false` has no capital, digit or special, and `[object Object]` has a capital only |
| UsuarioDtos.PasswordErrorsSplit | src/controllers/usuario.controller.js:11-16 | the rule list is the length rule followed by the three pattern rules |
| UsuarioController.WeakPasswordBeforeMismatch | src/controllers/usuario.controller.js:156-160 | a weak password is reported by its rules whatever the confirmation says |
| UsuarioController.PasswordErrorsLead | src/controllers/usuario.controller.js:8-21 | a rule-error message never reads as the mismatch message |
| UsuarioController.Eliminar | src/controllers/usuario.controller.js:229-267 | no session e-mail is a 401; a schema failure a 400; an empty normalised e-mail a 400; a mismatch a 403; otherwise the service decides |
| UsuarioController.SessionEmailNormalised | src/controllers/usuario.controller.js:239-246 | only the trimmed, lower-cased session e-mail matters |
| UsuarioController.BlankSessionEmailRefused | src/controllers/usuario.controller.js:239-244 | a session e-mail of blanks is truthy but is refused as invalid |
| UsuarioController.MatchingRequestReachesService | src/controllers/usuario.controller.js:246-260 | matching e-mails reach the service with the body's e-mail as written |
| UsuarioService.RegistrarUsuario | src/services/usuario.service.js:21-25 | registration is refused exactly when the e-mail is taken |
| UsuarioService.RegisterTwiceRefused | src/services/usuario.service.js:21-25 | registering the same e-mail twice fails the second time |
| UsuarioService.AuthenticateUsuario | src/services/usuario.service.js:37-45 | an unknown e-mail is reported before the password is compared; success returns that user |
| UsuarioService.UnknownBeforeCredentials | src/services/usuario.service.js:37-45 | for an unknown e-mail, the answer does not depend on the password comparison |
| UsuarioService.VerificarCodigo | src/models/usuario.model.js:38-54 | a code not in force is refused with the model layer's "Código incorrecto o expirado"; a code in force for an empty e-mail with the service's "Código inválido o expirado" (usuario.service.js:72-76); any other code is accepted and gives its e-mail |
| UsuarioService.RestablecerContrasena | src/services/usuario.service.js:81-85 | the new hash is stored under the code, and only then is the code withdrawn |
| UsuarioService.ApplyRecovery | src/services/usuario.service.js:81-85 | the recovery calls as the service means them: a reset changes only the hash of the code's user and keeps the codes; withdrawing a code changes only the codes |
| UsuarioService.CodeWorksOnce | src/services/usuario.service.js:72-85 | after a reset through a valid code, its user has the new hash, no other account changes, and the same code is then refused as not found ("Código incorrecto o expirado") |
| UsuarioService.ResetThenLogin | src/services/usuario.service.js:37-85 | after the reset as the service means it, the user logs in with exactly the passwords the new hash accepts |
| UsuarioService.RecoveryAsWritten | src/models/usuario.model.js:23-36 | the model layer's reset stores the hash of the value it is given, and its code withdrawal clears only codes whose e-mail equals its argument |
| UsuarioService.ResetLocksOutAsWritten | src/models/usuario.model.js:23-30 | with a comparison that accepts exactly the password a hash was made from, the chosen password no longer logs in after a reset, while the handler's hash does |
| UsuarioService.ResetPasswordLogsIn | src/services/usuario.service.js:81-85 | with the hash stored as given, the reset lets the user in with the chosen password and no other |
| UsuarioService.CodeReusableAsWritten | src/services/usuario.service.js:83 | the code handed to the e-mail-keyed withdrawal stays in force after the reset |
| UsuarioService.ActualizarTelefono | src/services/usuario.service.js:90-95 | anything but ten digits is refused before the store is called |
| UsuarioService.VerificarContrasena | src/services/usuario.service.js:100-104 | an unknown id is an error; otherwise the answer is the password comparison |
| UsuarioService.VerificarAgreesWithLogin | src/services/usuario.service.js:37-45 | for a user found by id and by e-mail, the current-password check answers true exactly when the login succeeds, and false exactly when the login fails on the credentials |
| UsuarioService.ActualizarContrasena | src/services/usuario.service.js:109-116 | differing passwords are refused before hashing; otherwise the hash of the new password is stored |
| UsuarioService.ChangeSchemaReachesStore | src/controllers/usuario.controller.js:212-216 | a body the change schema accepts always reaches the store with the new password's hash; differing passwords are already refused by the schema, so the service's own check is unreachable from the handler |
| UsuarioService.EliminarUsuario | src/services/usuario.service.js:121-129 | deletion needs the same existence-then-password check as the login, and deletes exactly that e-mail's account |
| UsuarioService.Deleted | src/services/usuario.service.js:128 | the deletion as the service means it: that account is gone and every other one is kept |
| UsuarioService.DeleteInModel | src/models/usuario.model.js:119-148 | the model layer deletes exactly when the account exists and the password it is given matches; a missing password is rejected by `bcrypt.compare` |
| UsuarioService.DeletionFailsAsWritten | src/services/usuario.service.js:128 | every request the service lets through is refused by the model layer for the missing password |
| UsuarioService.DeletionSucceedsCorrected | src/services/usuario.service.js:128 | with the password passed on, every request the service lets through deletes exactly that account |
| Js.Trim | src/controllers/stack.controller.js:59 | the result is a middle part of the text, with only white space before and after it, and no white space at its own ends |
| Js.TrimPadded | src/controllers/stack.controller.js:59 | white space, then a part with non-blank ends, then white space, trims to exactly that part |
| Js.ParseIntDecimal | src/controllers/stack.controller.js:45 | `parseInt` reads a decimal numeral back as its number |
| Js.ParseIntAuto | src/models/outfit.model.js:10 | without a radix an integer parses to itself and a value that is neither integer nor string is NaN |
| Js.ParseIntAutoString | src/models/outfit.model.js:10 | without a radix a string without the `0x`/`0X` prefix parses as in base 10, and one with it is NaN exactly when no hexadecimal digit follows the prefix |
| Js.HexNumeral | src/models/outfit.model.js:10 | `0x` followed by hexadecimal digits reads as their base-16 value; `0x` alone is NaN |
| Js.HexMarkAlone | src/models/outfit.model.js:10 | `parseInt("0x")` is NaN, so that stack id is refused |
| Js.HexMarkedByte | src/models/outfit.model.js:55 | `parseInt("0x1A")` is 26 |
| Js.AutoDecimal | src/models/outfit.model.js:55 | the radix-less `parseInt` reads a decimal numeral back as its number |
| Js.Utf16Length | src/controllers/usuario.controller.js:9 | `length` counts between one and two code units per character |
| Js.BmpLength | src/controllers/usuario.controller.js:9 | a string of Basic Multilingual Plane characters has one code unit per character |
| Js.Utf16Append | src/controllers/usuario.controller.js:9 | the length of a concatenation is the sum of the lengths |
| Scenarios.OnePieceInventorySpins | src/services/outfit.service.js:55-76 | a one-style inventory with one shoe and two one-pieces has bound 2 but only one reachable outfit, so a request for three never ends, having written that one outfit |
| Scenarios.OuterwearDoublesOutfits | src/services/outfit.service.js:125-129 | one top, bottom, shoe and coat give bound 1, yet two outfits with different keys are reachable |
| Scenarios.CasualSameStyle | src/services/outfit.service.js:266-299 | on such an inventory the same-style composer returns shoe, top and bottom, plus the coat when the draw adds it |

## Left out

- SQL, transactions and the connection pool: the store is three sets (stacks, outfits, links) with id counters, and each query is the set operation it performs.
- bcrypt, JWT, nodemailer, express-session and Cloudinary: the hash comparison and the hash are function parameters; the session is an optional value.
- Joi's `email()` format is a predicate parameter; Joi's own messages are not modelled, only acceptance.
- JS `Date` and time zones: dates are day numbers, and the database's locale-dependent `TMDay` weekday name is the English name of the date's weekday.
- Probabilities: draws are oracle arguments, and no distribution is claimed.
- The accept loop as an unbounded loop: the model reads a finite stream of draws and reports `Spinning` when the stream runs out, so non-termination is shown on scenarios, not as divergence.
- The order of string-sorted ids: keys are sorted numerically, which gives the same key equality.
- The write-and-link loop's `Outfit.findById` read-back: a stored outfit always reads back, so the `if (fullOutfit)` branch is not modelled.
- The generic `app.js` error handler that `next(error)` reaches is not modelled; such answers are `Forwarded(message)`.
- `getCurrentDayOutfit`, `getStacksByUser`, `getByStack`, favourites and the listing's SQL beyond its day filter and decoration are not part of this model.
- `usuario.model.js` ends with a top-level `await` and `return` (lines 150-155), so it cannot load as written. Only the three calls the service makes for a reset, a code withdrawal and a deletion are modelled, as their bodies read. The stored procedures they call are taken to do what their names and parameter names say.
- `solicitarCodigo`, `findUsuarioById` and `obtenerPerfilPorEmail`: only the code format is modelled (`UsuarioDtos.GeneratedCodeAccepted`); mail and profile reads are left out.
- `RestablecerContrasenaDTO` and `VerificarCodigoDTO` are not applied by the reset handler; the model follows the handler.
- The colour DTO's and the user schemas' treatment of extra keys is not modelled.
- The random outfit's `Outfit.create`, links and response are not modelled beyond the selection (`RandomOutfit.SelectItems`).
- Js.ParseInt: numbers are integers written in plain decimal. JavaScript renders numbers of 10^21 and above in exponent form, so `parseInt(1e21)` is 1. Fractions (`2.5` gives 2, `5e-7` gives 5), arrays (`[5]` gives 5) and the rounding of integers above 2^53 are also not modelled, so the model refuses or cannot express some `days` values the source accepts.
- Js.ParseIntAuto: the same limits as `Js.ParseInt` hold for the stack id of `Outfit.create`; a hexadecimal value above 2^53, which JavaScript rounds, is read exactly.
- Colors.GetCombinationColors: a base colour named after an inherited object property (`constructor`, `toString`, `valueOf`, `__proto__`) makes the source return that inherited member; the model returns the list of base colours for it.
- Garments.Fetch: PostgreSQL leaves the order of rows with equal category unspecified; the model returns them in table order.
- UsuarioService.ApplyRecovery: gives the recovery calls the effect the service means them to have, not the one `usuario.model.js` gives them. `CodeWorksOnce` and `ResetThenLogin` hold of this corrected layer; the layer as written is `RecoveryAsWritten` (see Findings).
- UsuarioService.Deleted: the deletion as the service means it. As written, the model layer never deletes (`DeletionFailsAsWritten`, see Findings).
- Js.LowerChar: lower-cases ASCII and leaves other characters alone, apart from Latin-1 capitals, whose case mapping is not stated.
- Generator.Persist: states counts and stacks only; the rows it stores are stated by `Generator.PersistStored`.

## Findings

| source | as written | input that shows it | evidently intended | confidence | as-written member | corrected member |
|---|---|---|---|---|---|---|
| src/controllers/stack.controller.js:144-157 | the catch block answers 400 only when the message contains `No hay suficientes prendas`, and 500 otherwise; the service's own `statusCode: 400` for an empty inventory is ignored | an admissible request (`days: 7`, categories with shoes and a one-piece) from a user with no garments | answer the service's status, message and advice (400) | not executed | StackController.EmptyInventoryAnswered500 | StackController.EmptyInventoryAnswered400 |
| src/services/prenda.service.js:30-38 | the service renames `color_secundario` to `id_color_secundario`, but `EditarPrendaDTO` reads only `color_secundario`, and `editarPrenda` binds `id_color_secundario`, a property the DTO lacks | `actualizarCampo(1, 1, { color_secundario: "5" })` | store the requested secondary colour | not executed | Prendas.SecondaryColourNeverStored | Prendas.IntendedColourStored |
| src/models/usuario.model.js:23-30 | the model layer hashes the password it receives, but the reset handler already hashed it (usuario.controller.js:162-166), so a hash of the hash is stored | a reset with `nuevaContrasena` `Abcdef1!`, then a login with `Abcdef1!` | hash the chosen password once, so it logs in | not executed | UsuarioService.ResetLocksOutAsWritten | UsuarioService.ResetPasswordLogsIn |
| src/services/usuario.service.js:83 | the service passes the recovery code to `eliminarTokenRecuperacion`, which takes an e-mail (usuario.model.js:107), so the code is not withdrawn | a reset through code `123456` issued for `ana@example.com`, then the same code again | withdraw the code once it has been used | not executed | UsuarioService.CodeReusableAsWritten | UsuarioService.CodeWorksOnce |
| src/services/usuario.service.js:128 | the service calls the model layer's `eliminarUsuario(email, contrasena)` with the e-mail only, so its second `bcrypt.compare` gets no password | a deletion request with the right e-mail and password | delete the account once the password is checked | not executed | UsuarioService.DeletionFailsAsWritten | UsuarioService.DeletionSucceedsCorrected |
