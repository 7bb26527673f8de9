# yamdb account and review rules in Dafny

yamdb is a Django REST service for reviews of works (titles): users sign up
with a username and e-mail, receive a confirmation code, trade it for an
access token, and then review titles and comment on reviews. This project
models the service's account and review rule set and proves properties of
it:

- the request validators of the serializers: the username pattern and the
  reserved name `me`, field lengths, the e-mail format, the title year, the
  review score, the sign-up and user conflict checks, the token check and
  the one-review-per-title check;
- the views that change the database: sign-up (create the user or refresh
  the code), genre and category deletion by slug, PATCH on a username and on
  `me`, DELETE on a username, and the creation of reviews and comments;
- the views that only read: token issue, the user look-up by username, and
  the title view's choice of serializer;
- the user model: the three roles, the role column's default and width, and
  the `is_admin` and `is_moderator` predicates;
- the catalogue models: unique slugs, the year and score bounds, the unique
  (author, title) constraint, and the CASCADE and SET_NULL rules, as the
  invariant `Valid()` of a database object and as the post-states of its
  delete methods;
- the confirmation-code generator: length, alphabet and the mapping from the
  random picks to the code.

The database is the class `Store.Database`: one `map` field per table keyed
by primary key, and a counter `nextId` for auto-increment keys. Views that
write are methods that take the database and modify it. Validators and
read-only views are functions over a snapshot of the tables.

Inputs that come from outside the code are parameters:

- `FieldRules` carries the Unicode word class `\w`, Django's e-mail
  validator and the configured maximum lengths. The lengths come from
  `api_yamdb.constants`, which is not part of this model.
- The current year is a parameter of `ValidateYear`.
- The year the models were loaded is `Database.yearAtImport`. It bounds the
  year column.
- The indices `random.choice` returned are the `picks` sequence of
  `GeneratePassword`.

Files:

- `wrappers.dfy`: `Option` and `Result`.
- `http.dfy`: request methods, status codes, and the error kinds.
  `ApiError.NotFound` stands for `ValidationNameError` as well as the
  framework's 404. `ApiError.DuplicateNotError` stands for
  `ValidationDublicateNotError`, which answers with status 200.
- `users.dfy`: the user model.
- `reviews.dfy`: the catalogue and review models.
- `store.dfy`: the database class and the cascades.
- `service.dfy`: the confirmation-code generator.
- `serializers.dfy`: the validators.
- `views.dfy`: the views.

## Model

| member | source | states |
|---|---|---|
| `Users.UserByName` | api_yamdb/api/serializers.py:198-200 | Under unique usernames, the look-up by username finds a user exactly when the name is registered, and the user it finds has that name. |
| `Users.AccountIffNameAndEmail` | api_yamdb/api/serializers.py:198-203 | The (username, email) pair is registered exactly when the user found by that name has that email. |
| `Users.MaxLength` | api_yamdb/users/models.py:23 | The width of the role column is at least the length of every choice and equals the length of one of them. |
| `Users.RoleMaxLengthIsModerator` | api_yamdb/users/models.py:23 | The role column is 9 characters wide, the length of "moderator", and every choice fits. |
| `Users.NewUser` | api_yamdb/users/models.py:21-26 | A row created by sign-up has role "user", one of the choices, is not a superuser, and is neither admin nor moderator. |
| `Users.IsAdmin` | api_yamdb/users/models.py:28-30 | `is_admin`: a superuser is an admin whatever the role. Without the flag a user is an admin exactly when the role is "admin". |
| `Users.IsModerator` | api_yamdb/users/models.py:32-34 | `is_moderator`: a moderator's role is one of the choices and is not "admin". A moderator without the superuser flag is not an admin. |
| `Users.RolePredicates` | api_yamdb/users/models.py:28-34 | Without the superuser flag a user is exactly one of admin, moderator or plain user. A superuser is always an admin. A superuser with role "user" is an admin and not a moderator. `is_moderator` ignores the flag. |
| `Reviews.AddReviewKeepsUnique` | api_yamdb/reviews/models.py:174-178 | Inserting a review for a pair that has none keeps the unique (author, title) constraint, and the pair then has a review. |
| `Reviews.ReviewExistsIsPerPair` | api_yamdb/api/serializers.py:259 | Whether a pair has a review does not change when a review for another author or another title is added. |
| `Service.CharRun` | api_yamdb/api/service.py:8 | A run of `n` consecutive characters has length `n` and contains exactly the characters in that range. |
| `Service.DefaultAlphabetIsAlphanumeric` | api_yamdb/api/service.py:8 | The default alphabet has 62 characters, and a character is in it exactly when it is an ASCII letter or digit. |
| `Service.DefaultAlphabetSpelledOut` | api_yamdb/api/service.py:8 | The default alphabet is a to z, then A to Z, then 0 to 9, in that order. |
| `Service.GeneratePassword` | api_yamdb/api/service.py:11-14 | The code has exactly `length` characters. Each one is taken from `characters`, and character `i` is the one at the `i`-th random pick. |
| `Service.DefaultCodeShape` | api_yamdb/api/service.py:11-14 | With the defaults, the code is 12 ASCII letters or digits. |
| `Service.EmptyPassword` | api_yamdb/api/service.py:11-13 | Length 0 gives the empty string, whatever the alphabet. |
| `Store.ReviewsNotBy` | api_yamdb/reviews/models.py:136-142 | After a user is deleted, the reviews that remain are exactly the reviews by other authors, unchanged. |
| `Store.ReviewsNotOn` | api_yamdb/reviews/models.py:161-168 | After a title is deleted, the reviews that remain are exactly the reviews of other titles, unchanged. |
| `Store.CommentsNotBy` | api_yamdb/reviews/models.py:191-197 | After a user is deleted, the comments that remain are exactly the comments by other authors, unchanged. |
| `Store.CommentsOn` | api_yamdb/reviews/models.py:204-210 | The comments that survive a review cascade are exactly those whose review still exists. |
| `Store.LinksNotOn` | api_yamdb/reviews/models.py:117-119 | After a title is deleted, the genre links that remain are exactly the links to other titles. |
| `Store.LinksNotOf` | api_yamdb/reviews/models.py:114-116 | After a genre is deleted, the genre links that remain are exactly the links to other genres. |
| `Store.Uncategorize` | api_yamdb/reviews/models.py:90-98 | After a category is deleted, every title is kept. The titles of that category get a null category and keep every other column. All other titles are unchanged. |
| `Store.TablesValid` | api_yamdb/reviews/models.py:12-210 | The constraints every committed state meets: unique usernames and roles among the choices, unique genre and category slugs, years in 0 to the year at load, scores in 1..10, one review per (author, title), and every foreign key present. It follows that every comment's review, and that review's title, exist. |
| `Store.DeleteUserKeepsValid` | api_yamdb/reviews/models.py:136-142 | After the user cascade every constraint holds again, including every remaining foreign key and the unique (author, title) pair. |
| `Store.DeleteTitleKeepsValid` | api_yamdb/reviews/models.py:161-168 | After the title cascade every constraint holds again. |
| `Store.DeleteGenreKeepsValid` | api_yamdb/reviews/models.py:114-116 | After the genre cascade every constraint holds again. |
| `Store.DeleteCategoryKeepsValid` | api_yamdb/reviews/models.py:90-98 | After SET_NULL on a category's titles every constraint holds again. |
| `Store.Database.constructor` | api_yamdb/reviews/models.py:68-76 | An empty database is valid. It fixes the year bound of the year column at load time. |
| `Store.Database.CreateUser` | api_yamdb/api/views.py:165-169 | Inserts the row under the next fresh key. Validity is kept, and no other table changes. |
| `Store.Database.SaveUser` | api_yamdb/api/views.py:170-172 | Overwrites one existing row and keeps the set of keys and validity. No other table changes. |
| `Store.Database.CreateReview` | api_yamdb/reviews/models.py:174-178 | Inserts a review for a pair that has none under a fresh key. The unique constraint and every other invariant are kept. |
| `Store.Database.CreateComment` | api_yamdb/reviews/models.py:184-210 | Inserts a comment on an existing review under a fresh key, keeping validity. |
| `Store.Database.DeleteUser` | api_yamdb/reviews/models.py:191-197 | Removes the user, their reviews, their comments and every comment on their reviews. Nothing else is removed, and the rest is unchanged. |
| `Store.Database.DeleteTitle` | api_yamdb/reviews/models.py:114-119 | Removes the title, its genre links, its reviews and their comments. Nothing else is removed. |
| `Store.Database.DeleteGenre` | api_yamdb/reviews/models.py:114-116 | Removes the genre and its links. The titles stay. |
| `Store.Database.DeleteCategory` | api_yamdb/reviews/models.py:90-98 | Removes the category. Its titles stay, with a null category and every other column as it was. |
| `Serializers.ClassRun` | api_yamdb/api/serializers.py:109 | The greedy run of `[\w.@+-]` stops exactly at the first character outside the class, or at the end. |
| `Serializers.MatchesUsernamePattern` | api_yamdb/api/serializers.py:109-114 | `re.match` of `^[\w.@+-]+\Z` succeeds exactly when the name is non-empty and every character is a word character or one of `. @ + -`. |
| `Serializers.ValidateUsername` | api_yamdb/api/serializers.py:108-118 | `me` is refused first. Otherwise a name passes exactly when it is non-empty and every character is a word character or one of `. @ + -`. An accepted name is returned unchanged. |
| `Serializers.EmptyUsernameRejected` | api_yamdb/api/serializers.py:114-117 | The empty name is refused with the invalid-characters error, since the pattern needs at least one character. |
| `Serializers.UsernameRejections` | api_yamdb/api/serializers.py:114-117 | Any name with a character outside the class is refused, and unless it is "me" the error is the invalid-characters error. |
| `Serializers.TrailingNewlineRejected` | api_yamdb/api/serializers.py:109 | Because the pattern ends in `\Z`, a trailing newline is refused when newline is not a word character. |
| `Serializers.ValidateUsernameField` | api_yamdb/api/serializers.py:183-185 | The sign-up username passes exactly when it is within the maximum length and the username check passes. Every refusal is a validation error (400): a name over the limit gets the too-long error, "me" within the limit the reserved-name error, and otherwise the answer is the username check's. |
| `Serializers.ValidateEmailField` | api_yamdb/api/serializers.py:186-188 | The e-mail passes exactly when it is within the maximum length and well-formed. An over-long e-mail gets the too-long error, and a malformed one within the limit the invalid-e-mail error. |
| `Serializers.ValidateYear` | api_yamdb/api/serializers.py:64-73 | A year passes exactly when it lies in 0 to the current year, inclusive. |
| `Serializers.ValidateScore` | api_yamdb/api/serializers.py:245-247 | A score passes exactly when it lies in 1..10, inclusive. |
| `Serializers.SignUpFields` | api_yamdb/api/serializers.py:180-195 | The sign-up fields pass exactly when both the username and the e-mail field pass. Every refusal is a validation error (400): the username field's error when it fails, otherwise the e-mail field's. |
| `Serializers.SignUpValidate` | api_yamdb/api/serializers.py:197-209 | A sign-up passes exactly when the pair is registered, or neither the name nor the e-mail is taken. A known name with another e-mail, or a new name with a taken e-mail, is refused. |
| `Serializers.UserValidate` | api_yamdb/api/serializers.py:138-154 | The user serializer passes exactly when neither the name nor the e-mail is taken. It raises the status-200 duplicate error exactly for a registered pair. |
| `Serializers.SignUpAndUserValidateDiffer` | api_yamdb/api/serializers.py:138-154 | The two conflict checks disagree only on a registered pair, which sign-up accepts. |
| `Serializers.GetTokenValidate` | api_yamdb/api/serializers.py:212-238 | A token request passes exactly when both fields are within their lengths and the user with that name stores exactly that code. An over-long name is a length error; an unknown name within the limit is a 404; a known name within the limit with an over-long code is a length error on the code; every other refusal is a validation error (400). |
| `Serializers.NullCodeNeverPasses` | api_yamdb/api/serializers.py:236 | A user whose code is null never passes the token check. |
| `Serializers.WrongCodeIsBadCode` | api_yamdb/api/serializers.py:236-237 | For a known user within the limits, a wrong code is a validation error, not a 404. |
| `Serializers.ReviewValidate` | api_yamdb/api/serializers.py:253-263 | A review is refused exactly when the request is a POST and the requester already reviewed the title. |
| `Views.SignUpCheck` | api_yamdb/api/views.py:162-163 | Sign-up is accepted exactly when the field checks and the conflict check pass, and it echoes the pair. Every refusal is a validation error (400): the field checks' error first, then the conflict check's. A taken username with another e-mail gets the username-taken error, a free username with a taken e-mail the e-mail-taken error, and "me" within the length limit the reserved-name error. |
| `Views.Upsert` | api_yamdb/api/views.py:165-172 | The users table after a successful sign-up: the keys are the old keys, plus the fresh key exactly when the pair was not registered. Some row then holds the pair and the new code. |
| `Views.PairLookup` | api_yamdb/api/views.py:165-168 | The `get_or_create` look-up finds a row exactly when the pair is registered, and the row it finds holds that pair. |
| `Views.UpsertExisting` | api_yamdb/api/views.py:170-172 | Signing up a registered pair keeps every row and changes only that row's code. |
| `Views.UpsertNew` | api_yamdb/api/views.py:165-169 | Signing up a new pair adds exactly one row, a plain user holding the generated code. |
| `Views.UpsertStoresCode` | api_yamdb/api/views.py:164-172 | After sign-up usernames are still unique, the pair is registered, and every row with that username has the submitted e-mail and the new code. |
| `Views.UpsertKeepsOthers` | api_yamdb/api/views.py:165-172 | Sign-up leaves every user with another username unchanged, adds no key but the fresh one, and keeps every role among the choices. |
| `Views.SignUpIdempotent` | api_yamdb/api/views.py:164-172 | A second sign-up with the same pair passes again and adds no row. The stored code is the latest one. |
| `Views.SignUp` | api_yamdb/api/views.py:161-177 | The view answers as the sign-up check does. On success the users table becomes the upsert with the generated code. On failure nothing changes, and no other table ever changes. |
| `Views.GetToken` | api_yamdb/api/views.py:186-193 | A token is issued exactly when the token check passes. It is for the user with the submitted name, who stores the submitted code. |
| `Views.TokenAfterSignUp` | api_yamdb/api/views.py:186-193 | After a sign-up, a token request for that name succeeds exactly with the code just stored. Any other code is refused as a bad code. |
| `Views.SerializerFor` | api_yamdb/api/views.py:62-69 | The read serializer is chosen exactly for `list` and `retrieve`. |
| `Views.DestroyGenre` | api_yamdb/api/views.py:85-88 | An unknown slug gives 404 and changes nothing. A known slug deletes exactly that genre and its links and gives 204. |
| `Views.DestroyCategory` | api_yamdb/api/views.py:85-88 | An unknown slug gives 404 and changes nothing. A known slug deletes exactly that category, clears it from its titles and gives 204. |
| `Views.ApplyPatch` | api_yamdb/api/serializers.py:157-177 | A partial update keeps absent fields and sets the given ones. A username held by another user is refused. A role outside the choices is refused where the role is writable, and otherwise the role is kept. |
| `Views.RetrieveByUsername` | api_yamdb/api/views.py:139 | The look-up gives 404 exactly for an unknown username, and otherwise the user with that name. |
| `Views.PatchByUsername` | api_yamdb/api/views.py:144-150 | An unknown username gives 404. Otherwise the answer is the partial update of the user with that name, role writable. On success that user alone is updated; on error nothing changes. |
| `Views.PatchMe` | api_yamdb/api/views.py:125-131 | The requester alone is updated, and their role is never changed. |
| `Views.DeleteTargetAsWritten` | api_yamdb/api/views.py:151-153 | As written, DELETE on a known username targets the requester. |
| `Views.DeleteAsWrittenRemovesRequester` | api_yamdb/api/views.py:151-153 | An administrator deleting another user as written deletes themselves. The corrected target is the other user. |
| `Views.DeleteByUsernameAsWritten` | api_yamdb/api/views.py:151-153 | As written, DELETE gives 404 and changes nothing for an unknown name. Otherwise it removes the requester, the requester's reviews and comments, and every comment on those reviews. Genres, categories, titles and links are unchanged. |
| `Views.DeleteByUsername` | api_yamdb/api/views.py:138-153 | DELETE gives 404 and changes nothing for an unknown name. Otherwise it removes exactly the named user, with that user's reviews and comments and every comment on those reviews, and gives 204. Genres, categories, titles and links are unchanged. |
| `Views.CreateReview` | api_yamdb/api/views.py:209-210 | The score is checked first, then the duplicate, then the title look-up: an unknown title is a 404. On success there is one new review, by the requester, on the title in the URL. On error nothing changes. |
| `Views.CreateComment` | api_yamdb/api/views.py:226-227 | A comment is created exactly when the review in the URL exists, by the requester on that review. Otherwise the answer is 404 and nothing changes. |

## Left out

- Permissions. The permission classes live in a module that is not part of this model. `Views.CreateReview` and `Views.CreateComment` require an authenticated requester, and no view checks roles.
- E-mail delivery of the code and the signing of the access token are foreign calls. A token is modelled as the key of the user it is for.
- The framework's field handling: whitespace trimming, blank strings, required fields, Django's `UnicodeUsernameValidator` and its `max_length` on the user model. `FieldRules` models the explicit length limits, the e-mail validator and `\w`.
- Error aggregation. The framework collects every field's error. The model reports the first error in the order the fields are declared.
- The `rating` aggregate, pagination, search and filters.
- Serialization of responses, including GET on `me` and on a username, which only read.
- Review and comment update and deletion, and title, genre and category creation. These are generic framework actions outside this rule set.
- `Review.title` is nullable in the schema. The model keeps every review attached to a title, as the views create them.
- Database errors (IntegrityError) and concurrent requests. Each view runs alone and against a valid database.
- `Service.GeneratePassword`: the picks must be valid indices and `length` is a natural number. So an empty alphabet with a positive length, where `random.choice` raises, is not modelled. Neither is a negative length, for which `range` is empty and the source returns the empty string. The only caller passes the default length 12.
- `Serializers.UserValidate`: models the serializer's `validate` hook alone. The serializer does not declare `username`, so the framework builds that field from the user model's unique column and adds a uniqueness validator, which runs before `validate`. On user creation a taken username is therefore refused by that validator, and the duplicate branch of `validate` is not reached through the view. That validator belongs to the framework and is not modelled for this serializer.
- `Views.ApplyPatch`, and through it `Views.PatchByUsername` and `Views.PatchMe`: acceptance is decided by the unique username check and the role choice alone. The serializer's other validators, which the framework builds from the user model, are not modelled: the e-mail format check, `UnicodeUsernameValidator` and the length limits. So the model accepts a PATCH with a malformed e-mail or an over-long field, which the source refuses with 400.

## Findings

| source | as written | input that shows it | evidently intended | confidence | as-written member | corrected member |
|---|---|---|---|---|---|---|
| api_yamdb/api/views.py:140,151-153 | DELETE on `/users/<username>/` deletes `request.user`, the requester, after looking up the named user | An administrator "root" (key 1) sends DELETE for "bob" (key 2). "root" is deleted and "bob" remains | Delete the looked-up user | high, not executed | `Views.DeleteByUsernameAsWritten`, `Views.DeleteAsWrittenRemovesRequester` | `Views.DeleteByUsername` |
