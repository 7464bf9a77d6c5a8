# CoreHub service core in Dafny

This project models the service layer of CoreHub, a NestJS/Prisma content backend, and proves properties of the model. The modelled core covers:

- **The dynamic translation overlay.** Each translatable text of a record (a category name, a slider title, an address) is stored as a row of the shared `DynamicTranslation` table. A row is keyed by table name, record id, field and language. The overlay is modelled once, as a generic engine (`Overlay` and `Adapters`). Five services instantiate it: categories, products, the home slider, about-us and contact-info. On the write side, create fans the texts out to every registered language (skipping keys that already exist), update upserts only the defined fields for one language, and delete removes every row of the record. On the read side there is a single-language projection (`find(...)?.content || ''`) and an all-language grouping.
- **The product main-image rule** (`ProductImages`): while a product has images, exactly one of them is main. Create, update and remove keep this rule.
- **Access control.** `Auth` models the JWT strategy's `validate`: role summaries, the flattened permissions, and the `Map`-based de-duplication by id (last value wins, first-occurrence order). `Guard` models the permissions guard.
- **The remaining services:**
  - `Roles`: role-permission links, replaced wholesale on update;
  - `Users`: user records, role links and responses without the password;
  - `StaticTranslations`: the key-to-value fold of static translations;
  - `ContactRequests`: the status whitelist and the newest-first listing.

The store is a value. Each service's state is a map from id to record plus the overlay store, a map from `Key(table, rowId, field, langId)` to content. Each operation is a function from state to `Result<(state, response)>`. Values the database or the environment would supply become parameters:

- fresh ids;
- the path of an uploaded file;
- the clock reading;
- the password hash function.

`findMany` and `findFirst` calls without an `orderBy` are modelled as ascending id.

## Model

| member | source | states |
|---|---|---|
| Languages.FindBy | src/modules/categories/categories.service.ts:41-42 | A lookup on a unique attribute (id or code) finds a registered language that matches, and finds one exactly when such a language exists. |
| Languages.FindByCode | src/modules/categories/categories.service.ts:41-42 | The language found for a code is a registered language with that code, and one is found exactly when such a language exists. |
| Languages.CodeDeterminesLanguage | src/modules/categories/categories.service.ts:41 | In a registry with unique codes and ids, two registered languages share a code only if they are the same language. |
| Ordering.Ascending | src/modules/categories/categories.service.ts:44-46 | `orderBy: { id: 'asc' }` lists every id of the set exactly once, in strictly increasing order. |
| Ordering.FirstKey | src/modules/about-us/about-us.service.ts:60-61 | `findFirst()` with no filter finds nothing exactly when the table is empty. Otherwise it finds the record with the smallest id. |
| Overlay.FanOut | src/modules/categories/categories.service.ts:194-204 | Create's fan-out keeps every existing row unchanged (`skipDuplicates`) and gives every registered language a row for every field. Each new row belongs to the record and holds its field's content. |
| Overlay.CreateMany | src/modules/categories/categories.service.ts:198-203 | The nested loop over languages and fields, with the insert-if-absent rule, builds exactly the declarative fan-out. With no language it leaves the store unchanged. |
| Overlay.Upsert | src/modules/categories/categories.service.ts:143-157 | After an upsert on the compound key, each given field of the record and language holds the new content. Every other row is unchanged, and no row appears outside the targeted keys. |
| Overlay.UpsertEach | src/modules/home-slider/home-slider.service.ts:194-224 | The per-field loop that upserts only the defined DTO values equals one upsert of the DTO restricted to the declared fields. |
| Overlay.DeleteRow | src/modules/categories/categories.service.ts:169 | `deleteMany` on table and record removes exactly that record's rows, in every language, and keeps every other row with its content. |
| Overlay.GroupLoop | src/modules/categories/categories.service.ts:206-221 | The grouping loop yields the same all-language view whatever order the store lists the rows in. A language entry is created with every field `''` at its first row, and each row then writes its content. |
| Adapters.FanOutComplete | src/modules/categories/categories.service.ts:194-204 | After a fresh record is created, every registered language projects exactly the creation values. |
| Adapters.FanOutWithoutLanguages | src/modules/categories/categories.service.ts:196 | With no registered language the fan-out writes nothing. |
| Adapters.FanOutIsolation | src/modules/categories/categories.service.ts:198-203 | Fan-out leaves every row of every other record and table as it was. |
| Adapters.PartialUpdate | src/modules/categories/categories.service.ts:143-157 | After an update, the language's projection is the old projection overridden by exactly the defined declared fields. |
| Adapters.UpdateLanguageIsolation | src/modules/categories/categories.service.ts:143-157 | Updating one language leaves every other language's projection of the record unchanged. |
| Adapters.RestrictDeclared | src/modules/home-slider/home-slider.service.ts:199-203 | A DTO that defines only declared fields reaches the store unfiltered. |
| Adapters.UpdateRowIsolation | src/modules/categories/categories.service.ts:143-157 | An update leaves the rows of every other record and every other table unchanged. |
| Adapters.UpdateLastWins | src/modules/categories/categories.service.ts:143-157 | When a second update defines every field the first one does, the second fully overrides the first; with equal DTOs, updating is idempotent. |
| Adapters.DeleteLeavesNothing | src/modules/categories/categories.service.ts:169 | After delete the record has no entry in any language, and every projected field reads `''`. |
| Adapters.DeleteIsolation | src/modules/categories/categories.service.ts:169 | Delete leaves the rows of every other record and table unchanged. |
| Adapters.ProjectionsAgree | src/modules/categories/categories.service.ts:74-81 | A registered language has an entry in the all-language view exactly when the record has a row in it. That entry carries the single-language projection's content for every declared field. |
| Adapters.StylesAgree | src/modules/home-slider/home-slider.service.ts:237-241 | When every row of a table carries a declared field, copying every row (`grouped[lang][t.field]`) and copying only the declared fields build the same view. |
| Categories.Create | src/modules/categories/categories.service.ts:24-37 | The new record takes the uploaded path over `dto.imageUrl` and defaults `isFeatured` to false. No other record changes, every existing overlay row is kept, and each new row belongs to the new record. |
| Categories.CreateFansOut | src/modules/categories/categories.service.ts:194-203 | After create, every registered language reads the given name and the description, or `''` when none was given. |
| Categories.CreateConsistent | src/modules/categories/categories.service.ts:27-33 | Create keeps every record under its own id, and every overlay row of the table belongs to an existing category. |
| Categories.FindAllByLanguage | src/modules/categories/categories.service.ts:40-64 | An unknown language code is NotFound; otherwise there is one view per category. |
| Categories.FindAllAscending | src/modules/categories/categories.service.ts:44-58 | The listing holds every category once, in ascending id, and each entry is that category with its own texts in the language. |
| Categories.FindOne | src/modules/categories/categories.service.ts:67-84 | The category is checked before the language (both NotFound). Each text reads the stored content for the record, field and language, or `''`. |
| Categories.FindLanding | src/modules/categories/categories.service.ts:87-119 | An unknown language is NotFound. Otherwise at most five entries, each the view of a stored category in that language, in landing order: featured before not featured, then ascending id. |
| Categories.LandingIsTopFive | src/modules/categories/categories.service.ts:87-119 | The landing list holds min(5, count) categories. Every category left out comes after each selected one: featured before not featured, then ascending id. |
| Categories.LandingCoversAll | src/modules/categories/categories.service.ts:94-99 | The featured-first order lists every category exactly once. |
| Categories.Update | src/modules/categories/categories.service.ts:122-161 | An unknown category or language is NotFound, before any write. The image is kept unless a file was uploaded, and `isFeatured` is kept unless the DTO sets it. |
| Categories.UpdateTexts | src/modules/categories/categories.service.ts:143-157 | After update, the language's projection is the old one overridden by exactly the defined name or description. Other languages read as before, no row outside this category and language changes, and consistency holds. |
| Categories.Remove | src/modules/categories/categories.service.ts:164-173 | An unknown id is NotFound. Otherwise the record and exactly its overlay rows are deleted, and all other rows keep their content. |
| Categories.RemoveLeavesNothing | src/modules/categories/categories.service.ts:169-170 | After remove no language has an entry for the category, and consistency holds. |
| Categories.ShoesCreated | src/modules/categories/categories.service.ts:194-203 | With en and fr registered, creating "Shoes" gives both languages the name "Shoes" and an empty description. |
| Categories.ShoesRenamed | src/modules/categories/categories.service.ts:143-149 | Renaming fr to "Chaussures" changes fr's name only, and en still reads "Shoes". |
| Products.Create | src/modules/products/products.service.ts:15-32 | The new record takes the DTO's values or the defaults: stock 0, active, not featured. The language code passed in plays no part. |
| Products.CreateFansOut | src/modules/products/products.service.ts:185-196 | Every registered language reads the name, the slug or `''`, and the description or `''`, and consistency holds. |
| Products.FindAll | src/modules/products/products.service.ts:35-42 | There is one entry per product, each with its all-language translations. |
| Products.FindAllByLanguage | src/modules/products/products.service.ts:45-70 | An unknown language is NotFound. Otherwise the list has one entry per product: every entry is the view of a stored product in that language, and every product's view is listed. |
| Products.ViewFields | src/modules/products/products.service.ts:59-63 | Each of name, slug and description reads the stored content for the language, or `''`. |
| Products.FindByCategory | src/modules/products/products.service.ts:73-116 | An unknown language is NotFound; otherwise there is one item per product of the category. |
| Products.FindByCategoryMembers | src/modules/products/products.service.ts:80-110 | Every listed item is a product of the category, with its texts in the language and the urls of its main images. |
| Products.FindByCategoryCovers | src/modules/products/products.service.ts:80-110 | Every product of the category has an item in the listing. |
| Products.FindOne | src/modules/products/products.service.ts:119-125 | An unknown id is NotFound; otherwise the record with its all-language translations. |
| Products.UpdateAsWritten | src/modules/products/products.service.ts:128-171 | The update as written: the writes match the corrected update, but the response merges the record read before the update. |
| Products.StaleUpdateResponse | src/modules/products/products.service.ts:169-170 | Whenever the DTO changes an attribute, the as-written response disagrees with the record just stored. |
| Products.Update | src/modules/products/products.service.ts:128-171 | An unknown product or language is NotFound, before any write. Undefined attributes keep their values, and the response shows the stored record. |
| Products.SameWrites | src/modules/products/products.service.ts:135-167 | The as-written and the corrected update produce the same state and differ only in the response. |
| Products.UpdateTexts | src/modules/products/products.service.ts:145-167 | The language's projection is overridden by exactly the defined fields. Other languages and other records are unchanged, and consistency holds. |
| Products.Remove | src/modules/products/products.service.ts:174-182 | An unknown id is NotFound. Otherwise the record and exactly its overlay rows are deleted. |
| Products.RemoveLeavesNothing | src/modules/products/products.service.ts:178-179 | After remove no language has an entry for the product, and consistency holds. |
| Products.GroupDefaults | src/modules/products/products.service.ts:204-211 | In the all-language view a field without a row reads `''`, and a field with a row reads its content. |
| ProductImages.Create | src/modules/product-images/product-images.service.ts:23-44 | The new image is main when the DTO asks for it (after every other image of the product lost the flag) or when the product had no main image. Otherwise it is `dto.isMain ?? false`. |
| ProductImages.CreateKeepsOneMain | src/modules/product-images/product-images.service.ts:25-41 | Create keeps every product at exactly one main image while it has images. |
| ProductImages.CreateAsMain | src/modules/product-images/product-images.service.ts:31-37 | With `isMain: true` the new image is its product's only main image. |
| ProductImages.Update | src/modules/product-images/product-images.service.ts:47-82 | An unknown id is NotFound, and clearing the flag on a product's only image is BadRequest; otherwise the update succeeds. Only flags change, other products' images are untouched, and the image takes the requested flag (an absent flag keeps it). |
| ProductImages.UpdatePromotesFirst | src/modules/product-images/product-images.service.ts:57-66 | Clearing the flag while no other image of the product is main gives the flag to the product's other image with the smallest id. No other image changes. |
| ProductImages.UpdateNoPromotion | src/modules/product-images/product-images.service.ts:51-79 | When the flag is not being cleared, or another image of the product is already main, no other image gains the flag. |
| ProductImages.UpdateKeepsOneMain | src/modules/product-images/product-images.service.ts:51-79 | Every successful update keeps every product at exactly one main image. |
| ProductImages.UpdateSetsFlag | src/modules/product-images/product-images.service.ts:69-79 | After update the image's flag is the requested one. With `true`, the image is its product's only main image. |
| ProductImages.Remove | src/modules/product-images/product-images.service.ts:85-95 | An unknown id is NotFound, and the main image cannot be deleted (BadRequest). |
| ProductImages.RemoveKeepsOneMain | src/modules/product-images/product-images.service.ts:89-92 | Removing a non-main image keeps every product's rule. |
| ProductImages.FindAllByProduct | src/modules/product-images/product-images.service.ts:98-102 | Exactly the product's images, each once: every entry is one of them, every one of them is listed, and the count matches. |
| ProductImages.OneMainUrl | src/modules/products/products.service.ts:90-93 | Under the rule, a product with images has exactly one main-image url in `findByCategory`. |
| HomeSlider.Create | src/modules/home-slider/home-slider.service.ts:23-55 | BadRequest exactly when neither an upload nor a non-empty `imageUrl` gives the slider an image. Otherwise a new record with that image and `ctaLink`, old rows kept, and new rows of the new slider only. |
| HomeSlider.CreateFansOut | src/modules/home-slider/home-slider.service.ts:158-192 | Every registered language reads the title, and the subtitle and call-to-action text or `''`, and consistency holds. |
| HomeSlider.FindAllByLanguage | src/modules/home-slider/home-slider.service.ts:58-90 | An unknown language is NotFound; otherwise there is one view per slider. |
| HomeSlider.FindAllAscending | src/modules/home-slider/home-slider.service.ts:64-85 | Every slider appears once, in ascending id, with its own texts in the language. |
| HomeSlider.Update | src/modules/home-slider/home-slider.service.ts:93-121 | Slider then language are checked (NotFound) before any write. The image changes only on upload, and `ctaLink` is kept unless the DTO sets it. |
| HomeSlider.UpdateTexts | src/modules/home-slider/home-slider.service.ts:194-224 | The language's projection is overridden by exactly the defined fields. Other languages and records are unchanged, and consistency holds. |
| HomeSlider.Remove | src/modules/home-slider/home-slider.service.ts:124-137 | An unknown id is NotFound. Otherwise the record and exactly its overlay rows are deleted. |
| HomeSlider.RemoveLeavesNothing | src/modules/home-slider/home-slider.service.ts:130-134 | After remove no language has an entry for the slider, and consistency holds. |
| HomeSlider.GroupCopiesEveryRow | src/modules/home-slider/home-slider.service.ts:237-241 | A language entry's keys are the three declared fields plus every stored field of that language. Each key reads the stored content or `''`. |
| AboutUs.Create | src/modules/about-us/about-us.service.ts:27-56 | BadRequest exactly when a record exists. Otherwise the table becomes the one new record, whose image is the upload or else `dto.imageUrl`. |
| AboutUs.CreateFansOut | src/modules/about-us/about-us.service.ts:158-203 | Every registered language reads the four texts, each missing one as `''`. |
| AboutUs.CreateConsistent | src/modules/about-us/about-us.service.ts:37-51 | After create the state is consistent and holds exactly one record. |
| AboutUs.SecondCreateRejected | src/modules/about-us/about-us.service.ts:28-33 | A create after a successful create is always BadRequest. |
| AboutUs.FindByLanguage | src/modules/about-us/about-us.service.ts:59-84 | With no record the result is NotFound, checked before the language. Otherwise the first record, with each of the four texts read from storage or `''`. |
| AboutUs.Update | src/modules/about-us/about-us.service.ts:87-116 | Record then language are checked (NotFound) before any write, and the image changes only on upload. |
| AboutUs.UpdateTexts | src/modules/about-us/about-us.service.ts:205-231 | The language's projection is overridden by exactly the defined texts. Other languages read as before, and consistency (a single record) holds. |
| Adapters.RemoveRecord | src/modules/about-us/about-us.service.ts:119-134 | An unknown id is NotFound. Otherwise the record and exactly its overlay rows are deleted, every other row is kept, and the deleted record is returned. About-us and contact-info remove through it. |
| AboutUs.RemoveThenCreate | src/modules/about-us/about-us.service.ts:119-134 | After removing the only record, the table is empty, `getByLanguage` is NotFound and no language has an entry. |
| ContactInfo.Create | src/modules/contact-info/contact-info.service.ts:14-42 | BadRequest exactly when a record exists. Otherwise the one record with the DTO's details. The address rows are written only for a non-empty address. |
| ContactInfo.CreateAddress | src/modules/contact-info/contact-info.service.ts:33-35 | After create every registered language reads the address when it was non-empty, and `''` otherwise. |
| ContactInfo.CreateConsistent | src/modules/contact-info/contact-info.service.ts:22-38 | After create the state is consistent and holds exactly one record. |
| ContactInfo.FindByLanguage | src/modules/contact-info/contact-info.service.ts:45-72 | Never fails. The record is shown when one exists. The address is that of the first record (rows of id 0 when there is none) in the language, and `''` for an unknown language. |
| ContactInfo.Update | src/modules/contact-info/contact-info.service.ts:76-100 | Record then language are checked (NotFound). Each undefined detail keeps its value, and the overlay is untouched when no address is given. |
| ContactInfo.UpdateAddress | src/modules/contact-info/contact-info.service.ts:94-96 | A given address (even `''`) becomes the language's address. Other languages are unchanged, and consistency holds. |
| ContactInfo.RemoveThenRead | src/modules/contact-info/contact-info.service.ts:103-114 | After removing the only record, the public read has no record, no language has an address entry, and create is accepted again. |
| Auth.Configure | src/modules/auth/jwt.strategy.ts:13-16 | A missing or empty secret is a configuration error, and any other secret is accepted. |
| Auth.Granted | src/modules/auth/jwt.strategy.ts:51-57 | A permission is in the flattened list exactly when some role of the user grants it. |
| Auth.DedupeByMap | src/modules/auth/jwt.strategy.ts:59-61 | The `new Map(...).values()` walk gives the de-duplicated list: the last element per id, in first-occurrence order. |
| Auth.DedupeDistinct | src/modules/auth/jwt.strategy.ts:59-61 | The de-duplicated permissions have pairwise distinct ids. |
| Auth.DedupeKeepsLast | src/modules/auth/jwt.strategy.ts:59-61 | For each id, the kept element is the input element that no later element with that id follows. |
| Auth.KeyOrderFirstOccurrence | src/modules/auth/jwt.strategy.ts:60 | When id `a` precedes id `b` in the output, the first occurrence of `a` comes before every occurrence of `b` in the input. |
| Auth.Validate | src/modules/auth/jwt.strategy.ts:25-69 | Unauthorized exactly for an unknown subject. Otherwise the principal has the user's id and email and one role summary per role link. |
| Auth.ValidateRoles | src/modules/auth/jwt.strategy.ts:45-49 | The principal's role summaries follow the user's role links one for one and in order, each with the role's id, name and description. |
| Auth.ValidateIds | src/modules/auth/jwt.strategy.ts:51-61 | A permission id is held exactly when some role of the user grants it. |
| Auth.ValidateMembers | src/modules/auth/jwt.strategy.ts:51-61 | When permission ids identify permissions, the principal holds exactly the union of its roles' permissions. |
| Auth.ValidateDistinct | src/modules/auth/jwt.strategy.ts:59-61 | The principal's permission ids are pairwise distinct. |
| Guard.CanActivate | src/common/guards/permissions.guard.ts:9-35 | Allowed when nothing is required. Otherwise a missing user or permission list is Forbidden, and the route is allowed exactly when every required endpoint is the endpoint of a held permission. The answer is never false. |
| Guard.HasPermission | src/common/guards/permissions.guard.ts:26-28 | The `every`/`some` loops answer true exactly when every required endpoint is held. |
| Guard.Decide | src/common/guards/permissions.guard.ts:9-35 | The guard evaluated with its loops agrees with the declarative decision. |
| Guard.MorePermissionsStillAllowed | src/common/guards/permissions.guard.ts:26-28 | Granting more permissions never turns allow into deny. |
| Guard.FewerRequiredStillAllowed | src/common/guards/permissions.guard.ts:15-28 | Requiring fewer endpoints never turns allow into deny. |
| Guard.ValidatedAccess | src/common/guards/permissions.guard.ts:26-28 | A validated user passes exactly when each required endpoint belongs to a permission one of its roles grants. |
| Roles.FindOne | src/modules/roles/roles.service.ts:25-29 | An unknown id is NotFound; otherwise the stored role. |
| Roles.GetRolePermissions | src/modules/roles/roles.service.ts:48-65 | An unknown role is NotFound. Otherwise every listed link belongs to the role, and every link of the role is listed. |
| Roles.RolePermissionsListed | src/modules/roles/roles.service.ts:56-61 | The listed links carry exactly the permission ids the role holds. |
| Roles.UpdateRolePermissions | src/modules/roles/roles.service.ts:68-88 | An unknown role is NotFound and nothing changes. A listed permission id with no stored permission fails in the store after the role's links are already deleted. Otherwise it succeeds. Roles are unchanged, and an empty list gives an empty response. |
| Roles.FailureStripsRole | src/modules/roles/roles.service.ts:75-82 | After a failed `createMany` the role holds no permission at all, and every other role's links are as they were. |
| Roles.ReplaceSemantics | src/modules/roles/roles.service.ts:75-84 | Afterwards the role holds exactly the listed permission ids. Every other role's links are untouched, and the response lists only the role's links with listed ids. |
| Users.Create | src/modules/users/users.service.ts:21-48 | Status defaults to `'active'`, and a non-empty password is stored hashed. The response is the stored record without the password. |
| Users.CreateLinksRoles | src/modules/users/users.service.ts:38-44 | The new user gains exactly the listed roles, and no other user's roles change. |
| Users.Update | src/modules/users/users.service.ts:90-109 | An unknown id is the store's error. The stored password never changes, and defined attributes are written. The response has no password, and an empty role list leaves the links alone. |
| Users.UpdateReplacesRoles | src/modules/users/users.service.ts:97-105 | A non-empty role list leaves the user with exactly those roles; an empty or missing one leaves its roles as they were. Other users are unaffected. |
| Users.FindAll | src/modules/users/users.service.ts:51-77 | One entry per user: every entry is the entry of a stored user, and every user's entry is listed. |
| Users.Entry | src/modules/users/users.service.ts:53-73 | An entry shows the user without the password, its role links, and its language: present exactly when the user names a registered language, and then that language. |
| Users.RoleEntries | src/modules/users/users.service.ts:54-58 | Each listed link belongs to the user and carries the role record its role id names; the list has one entry per link of the user. |
| Users.RoleEntriesExact | src/modules/users/users.service.ts:54-58 | The listed links name exactly the roles the user is linked to. |
| StaticTranslations.FoldKeys | src/modules/translations/translations.service.ts:53-56 | A key is in the folded map exactly when some row has it. |
| StaticTranslations.FoldLastWins | src/modules/translations/translations.service.ts:53-56 | Each key maps to the value of the last row with that key. |
| StaticTranslations.Reduce | src/modules/translations/translations.service.ts:53-56 | The `reduce` loop computes the fold. |
| StaticTranslations.FindByLanguage | src/modules/translations/translations.service.ts:33-64 | NotFound exactly when the language has no rows. Otherwise the language of its lowest-id row (its own id in a consistent store), with `'successful'` and 200. |
| StaticTranslations.FindByLanguageLastWins | src/modules/translations/translations.service.ts:34-56 | The map holds exactly the keys of the language's rows, each with the value of the highest-id row among them with that key. |
| StaticTranslations.FindOne | src/modules/translations/translations.service.ts:68-77 | An unknown id is NotFound; otherwise the stored row. |
| ContactRequests.UpdateStatus | src/modules/contact-requests/contact-request.service.ts:36-55 | An unknown id is NotFound, checked first. A missing or empty status, or one outside pending/in_progress/completed, is BadRequest. Otherwise only the status is written. |
| ContactRequests.UpdateStatusOnlyStatus | src/modules/contact-requests/contact-request.service.ts:49-52 | Every other attribute and every other request are as before. Repeating the same update changes nothing. |
| ContactRequests.StatusChecksAgree | src/modules/contact-requests/contact-request.service.ts:40-47 | For a known id the update fails exactly when the status is missing or not allowed. The emptiness check is subsumed by the whitelist. |
| ContactRequests.SortNewest | src/modules/contact-requests/contact-request.service.ts:21-23 | The sort returns a permutation of its input with `createdAt` never increasing. |
| ContactRequests.FindAll | src/modules/contact-requests/contact-request.service.ts:20-26 | The listing is newest first, a permutation of the stored requests, one entry per request. |
| ContactRequests.FindAllExact | src/modules/contact-requests/contact-request.service.ts:21-23 | Every stored request is listed, and every entry is a stored request. |
| ContactRequests.FindOne | src/modules/contact-requests/contact-request.service.ts:29-33 | An unknown id is NotFound; otherwise the stored request. |
| ContactRequests.Remove | src/modules/contact-requests/contact-request.service.ts:58-63 | An unknown id is NotFound. Otherwise exactly that request is deleted and returned. |

## Left out

- File storage: saving, naming and deleting uploaded images (`saveUploadedFile`, `deleteImage`, `deleteFile`, the upload-directory constructors). An upload is an optional path parameter.
- Transactions and `Promise.all`: every operation is sequential. No atomicity is claimed. The create helpers write through `this.prisma` rather than the transaction client, except in contact-info.
- The response helpers `wrapResponse`, `formatSingle` and `formatList` are not shown in the repository. They are treated as the identity.
- Hashing: bcrypt is a function parameter. Token extraction and signing belong to passport and are out of scope.
- Controllers, modules, `main.ts` and the seed script: routing and bootstrap only.
- DTO validation decorators: two rules of the validation pipe appear as preconditions of the creates. Categories.Create and Products.Create require a name of 1 to 100 characters, and Products.Create requires a stock quantity of at least 0. The other pipe rules are not modelled: type checks (`@IsString`, `@IsInt`, `@IsBoolean`, `@IsEmail`), the non-empty `priority` of a product, the non-empty `title` of a slide, and the `isFeatured` string-to-boolean `@Transform` of a category. The contact-request status whitelist is modelled because the service checks it again.
- Floating-point coordinates in contact-info are only copied, so they are modelled as opaque `real` values.
- Unordered `findMany` calls (products, product images, users, a role's links) are modelled in ascending id, since the store's order is unspecified. The same holds for the unordered `findFirst` of about-us and contact-info, modelled as the smallest id (Ordering.FirstKey). With at most one record, which create keeps, the choice makes no difference.
- Orphan overlay rows, whose language is not registered, are skipped by the model's grouping. The source would dereference a missing language; the foreign key prevents such rows.
- ContactInfo: the grouping writes every row's content into `address` whatever its field. The model copies only `address` rows. The two agree while the table holds only `address` rows, which every modelled write preserves (`Adapters.ConfinementPreserved`).
- Roles: `create`, `findAll`, `update` and `remove` are plain pass-throughs to the store and are not modelled.
- Roles.UpdateRolePermissions: `skipDuplicates` is modelled as one new link per list element. Which link pairs the database treats as duplicates depends on constraints the repository does not show.
- Users.FindAll: the included role and language records are looked up from parameters holding the stored roles and languages. A link whose role is missing carries no role, which the foreign key rules out.
- Foreign keys on create and update: an id that names no stored row makes the store fail. The model does not check these ids and returns Ok. Only Roles.UpdateRolePermissions models this failure. The members concerned follow.
- Users.Create: an unknown role or language id is not checked.
- Products.Create: an unknown `categoryId` is not checked.
- ProductImages.Create: an unknown `productId` is not checked.
- Products.Update: an unknown `categoryId` is not checked. In the source, `product.update` fails before any text is written; the model stores the id and returns Ok.
- Users.Update: an unknown `languageId` is not checked. In the source, `user.update` fails and nothing is written; the model returns Ok. An unknown role id is not checked either; see the next line.
- Users.UpdateReplacesRoles: "exactly the listed roles" holds only when every listed role id names a stored role. With an unknown role id, the source has already deleted every old link when one `userRole.create` fails. The creates run concurrently, so the user keeps links to some of the known listed roles and the response is an error. The model does not express that partial state.
- Users: `findOne` returns the record including its password hash, unlike every other user response. `remove` is a pass-through. Neither is modelled.
- Users.Update: the store's distinction between `null` and an undefined attribute is not modelled. An undefined attribute keeps its value.
- Text updates of categories, products, home-slider, about-us and contact-info: each text field is upserted when it is `!== undefined`. A JSON `null` passes the optional-field validation and would reach the store as `content: null`, which the store either rejects or stores, depending on a schema the repository does not show. The model's optional values cannot express `null`: a missing text is skipped (Overlay.UpsertEach and each service's `UpdateValues`).
- ContactRequests: `create` relies on schema defaults for status and timestamp, which the repository does not show. It is not modelled.
- ContactRequests.FindAll: ties in `createdAt` come back in an unspecified order. The model fixes one order and proves only the ordering and the permutation.
- StaticTranslations: `create`, `findAll`, `update` and `remove` are pass-throughs and are not modelled.
- Auth.ValidateRoles and Adapters.ConfinementPreserved: both follow directly from the definitions and need no proof steps.

## Findings

| source | as written | input that shows it | evidently intended | confidence | as-written member | corrected member |
|---|---|---|---|---|---|---|
| src/modules/products/products.service.ts:169-170 | `update` returns `{ ...product, translations }`, where `product` is the record read before the write | a product with `stockQuantity` 0, updated with `stockQuantity: 5`, is stored with 5 but the response shows 0 | the response shows the updated record, as every other service's update does | not executed | Products.StaleUpdateResponse | Products.Update |
