# CSRF tokens kept per client in a database table

This project models `CustomCSRFTokenRepository`, the Spring Security
`CsrfTokenRepository` of the `spring-csrf-custom-token-repository`
application. The repository keeps one anti-forgery token per client in the
JPA table `token`. A client names itself with the request header `x_id`.

- `generateToken` builds a `DefaultCsrfToken` with header name
  `X-CSRF-TOKEN`, parameter name `_csrf` and a random key.
- `saveToken` looks up the row for the client's identifier. If it finds one,
  it overwrites that row's value in place. Otherwise it inserts a new `Token`
  entity. In both cases the value is copied into the request attribute `_csrf`.
- `loadToken` returns the stored value wrapped in a `DefaultCsrfToken` and
  injects it into the request. It returns null when the client has no row.

Modules:

- `Wrappers` (`wrappers.dfy`): `Option`. `None` is Java's `null`.
- `Tokens` (`token.dfy`): the `Token` entity as a class with its Lombok
  setters, and `Row`, the value one row holds.
- `Store` (`store.dfy`): `JPATokenRepository`, consisting of:
  - the table as a value (`Table`: rows in insertion order and the next
    IDENTITY value);
  - the derived query `findTokenByIdentifier` (`Lookup` on values,
    `FindTokenByIdentifier` on the managed entities);
  - the inherited `save` of a new entity.
- `Requests` (`request.dfy`): the servlet request's headers and attribute bag.
- `CsrfRepository` (`csrf_repository.dfy`): the repository class and its
  specification on table values:
  - `Upserted` is what `saveToken` does to the table.
  - `Loaded` is what `loadToken` finds.
  - `Consistent` is the invariant the class keeps: one row per identifier,
    and every row holds a value.
- `Scenarios` (`scenarios.dfy`): request sequences through the class against
  an empty table.

The class `JpaTokenRepository` keeps its managed `Token` objects in `rows`. A
ghost field `table` records the values those objects hold, and `Valid()` ties
the two together. The methods of `CustomCsrfTokenRepository` are proved
against `Upserted` and `Loaded`. The lemmas about those functions then carry
the repository's promises:

- a save followed by a load returns the saved value;
- other clients are unaffected;
- the last save wins;
- saves never create a second row for one identifier.

## Model

| member | source | states |
|---|---|---|
| Tokens.Token.constructor | src/main/java/dev/sk/csrf/Token.java:9-15 | a new entity holds id 0 (Java's primitive default) and null identifier and token |
| Tokens.Token.GetToken | src/main/java/dev/sk/csrf/Token.java:14 | the Lombok getter returns the token the entity's row holds |
| Tokens.Token.GetIdentifier | src/main/java/dev/sk/csrf/Token.java:13 | the Lombok getter returns the identifier the entity's row holds |
| Tokens.Token.SetToken | src/main/java/dev/sk/csrf/Token.java:14 | the Lombok setter changes the token field and nothing else of the entity |
| Tokens.Token.SetIdentifier | src/main/java/dev/sk/csrf/Token.java:13 | the Lombok setter changes the identifier field and nothing else of the entity |
| Requests.Request.GetHeader | src/main/java/dev/sk/csrf/SpringCsrfCustomTokenRepositoryApplication.java:56 | `getHeader("x_id")` is null exactly when the header is absent, and otherwise its value |
| Requests.Request.SetAttribute | src/main/java/dev/sk/csrf/SpringCsrfCustomTokenRepositoryApplication.java:90 | `setAttribute` maps the name to a non-null value and removes the attribute for null |
| Store.InsertKeepsKeyed | src/main/java/dev/sk/csrf/Token.java:10-12 | inserting a row with the next IDENTITY value keeps ids positive, increasing in insertion order and below the next value |
| Store.KeyedIdsDistinct | src/main/java/dev/sk/csrf/Token.java:10-12 | in a well-keyed table no two rows share a primary key |
| Store.Lookup | src/main/java/dev/sk/csrf/JPATokenRepository.java:11 | the query is empty exactly when no row has the identifier; a unique result is the only matching row; "several results" is returned only when two rows match |
| Store.JpaTokenRepository.constructor | src/main/java/dev/sk/csrf/JPATokenRepository.java:9 | the repository starts with an empty table whose identity column starts at 1 |
| Store.JpaTokenRepository.FindTokenByIdentifier | src/main/java/dev/sk/csrf/JPATokenRepository.java:11 | the `Optional` is empty, present or an error exactly as `Lookup` on the table says; a present result is the managed entity of that row and carries the identifier |
| Store.JpaTokenRepository.Save | src/main/java/dev/sk/csrf/JPATokenRepository.java:9 | saving a new entity assigns it the next identity value, appends it as the last row and keeps the table well keyed |
| CsrfRepository.ConsistentLookupNotAmbiguous | src/main/java/dev/sk/csrf/JPATokenRepository.java:11 | with one row per identifier the query never fails with several results |
| CsrfRepository.Upserted | src/main/java/dev/sk/csrf/SpringCsrfCustomTokenRepositoryApplication.java:55-70 | the save of a value keeps one row per identifier with a value in every row, and keeps the ids well formed |
| CsrfRepository.ReplaceValueKeepsWellFormed | src/main/java/dev/sk/csrf/SpringCsrfCustomTokenRepositoryApplication.java:59-62 | giving the found row a new value keeps one row per identifier, a value in every row and the ids well formed |
| CsrfRepository.AppendUnseenKeepsWellFormed | src/main/java/dev/sk/csrf/SpringCsrfCustomTokenRepositoryApplication.java:63-68 | inserting a row for an identifier no row has, with a value and the next id, keeps one row per identifier, a value in every row and the ids well formed |
| CsrfRepository.UpsertedShape | src/main/java/dev/sk/csrf/SpringCsrfCustomTokenRepositoryApplication.java:55-70 | a row is added, with the next id, only for an unseen identifier; ids and identifiers never change; rows of other identifiers are untouched; every row for the identifier holds the new value |
| CsrfRepository.DefaultCsrfToken | src/main/java/dev/sk/csrf/SpringCsrfCustomTokenRepositoryApplication.java:51 | the built token carries header name `X-CSRF-TOKEN`, parameter name `_csrf` and the given value |
| CsrfRepository.Loaded | src/main/java/dev/sk/csrf/SpringCsrfCustomTokenRepositoryApplication.java:73-88 | the load finds nothing exactly when no row has the identifier, and otherwise a value that a row with that identifier holds |
| CsrfRepository.SaveThenLoad | src/main/java/dev/sk/csrf/SpringCsrfCustomTokenRepositoryApplication.java:55-88 | saving a value for an identifier and then loading it gives that value back |
| CsrfRepository.SaveLeavesOthers | src/main/java/dev/sk/csrf/SpringCsrfCustomTokenRepositoryApplication.java:55-88 | a save for one identifier does not change what any other identifier loads |
| CsrfRepository.SecondSaveWins | src/main/java/dev/sk/csrf/SpringCsrfCustomTokenRepositoryApplication.java:59-62 | a second save for the same identifier replaces the first value and adds no row |
| CsrfRepository.SaveAll | src/main/java/dev/sk/csrf/SpringCsrfCustomTokenRepositoryApplication.java:55-70 | any sequence of saves leaves one row per identifier, each with a value |
| CsrfRepository.LastSaved | src/main/java/dev/sk/csrf/SpringCsrfCustomTokenRepositoryApplication.java:55-70 | the last save for an identifier is none exactly when no save names it; otherwise it is a save naming it with no later save naming it |
| CsrfRepository.LoadAfterSaves | src/main/java/dev/sk/csrf/SpringCsrfCustomTokenRepositoryApplication.java:55-88 | after any sequence of saves, a load gives the last value saved for the identifier, or what was stored before when there was no save for it |
| CsrfRepository.SavesKeepTableWellFormed | src/main/java/dev/sk/csrf/SpringCsrfCustomTokenRepositoryApplication.java:55-70 | any sequence of saves keeps ids well formed and one row per identifier; every earlier row stays at its position with its id and identifier |
| CsrfRepository.CustomCsrfTokenRepository.constructor | src/main/java/dev/sk/csrf/SpringCsrfCustomTokenRepositoryApplication.java:44-46 | the repository wraps the injected JPA repository and starts valid |
| CsrfRepository.CustomCsrfTokenRepository.GenerateToken | src/main/java/dev/sk/csrf/SpringCsrfCustomTokenRepositoryApplication.java:49-52 | the token carries header name `X-CSRF-TOKEN`, parameter name `_csrf` and the generated key |
| CsrfRepository.CustomCsrfTokenRepository.InjectCsrfToken | src/main/java/dev/sk/csrf/SpringCsrfCustomTokenRepositoryApplication.java:89-91 | the request attribute `_csrf` is set to the value, or removed for null; other attributes are unchanged |
| CsrfRepository.CustomCsrfTokenRepository.SaveToken | src/main/java/dev/sk/csrf/SpringCsrfCustomTokenRepositoryApplication.java:55-70 | the table becomes `Upserted` of the `x_id` header (null when absent) and the token's value; the repository stays consistent; `_csrf` holds the value; a known identifier adds no entity, an unknown one adds exactly one new entity |
| CsrfRepository.CustomCsrfTokenRepository.UpdateManaged | src/main/java/dev/sk/csrf/SpringCsrfCustomTokenRepositoryApplication.java:59-62 | `setToken` on the found managed entity changes only that row, to the new value |
| CsrfRepository.CustomCsrfTokenRepository.InsertNew | src/main/java/dev/sk/csrf/SpringCsrfCustomTokenRepositoryApplication.java:63-68 | a new entity with the value and identifier is saved as the last row, with the next id |
| CsrfRepository.CustomCsrfTokenRepository.LoadToken | src/main/java/dev/sk/csrf/SpringCsrfCustomTokenRepositoryApplication.java:73-88 | for an unknown identifier the result is null and the request is untouched; otherwise the result is `DefaultCsrfToken("X-CSRF-TOKEN", "_csrf", stored value)` and `_csrf` holds the stored value |
| Scenarios.OneClient | src/main/java/dev/sk/csrf/SpringCsrfCustomTokenRepositoryApplication.java:55-88 | a new client loads null, then loads back the token it saved; a second token replaces the first in the same single row |
| Scenarios.TwoClients | src/main/java/dev/sk/csrf/SpringCsrfCustomTokenRepositoryApplication.java:55-88 | a token saved for one `x_id` is not loaded for another |
| Scenarios.AnonymousClientsShare | src/main/java/dev/sk/csrf/SpringCsrfCustomTokenRepositoryApplication.java:55-88 | requests without an `x_id` header share the null identifier, so one such client loads another's token |

## Left out

- The key generator (`KeyGenerators.string()`) is outside the model. Its output is the `key` parameter of `GenerateToken`.
- `CSRFLogger`, the controllers, the security configuration and `main` are not part of this model. Neither is Spring's `CsrfFilter`, which compares the loaded token with the submitted one.
- The `System.out.println` on a failed load is not modelled.
- Headers are an exact-match map with one value per name. Servlet header names are case-insensitive and may repeat.
- Request attributes hold only strings.
- Store.JpaTokenRepository.Save: only the insert of a new entity (id 0) is modelled. `saveToken` never saves an entity it found, so the merge path of `save` goes unused.
- CsrfRepository.CustomCsrfTokenRepository.UpdateManaged: the in-place `setToken` on a managed entity reaches the database only if a transaction flushes it. The model treats the entity's new value as stored at once. Transactions, flushing and the persistence context's lifetime are not modelled.
- CsrfRepository.CustomCsrfTokenRepository.SaveToken: Spring clears a token by calling `saveToken` with a null token. Here `csrfToken.getToken()` would throw a `NullPointerException`, and that call is not modelled.
- Every method of `CustomCsrfTokenRepository` requires `Consistent`: one row per identifier, and a non-null token in every row. The class keeps both true itself. A table changed from elsewhere is excluded rather than modelled. Duplicates would make the source throw on lookup. A row with a null token would make `loadToken` fail inside `DefaultCsrfToken`.
- A missing `x_id` header gives a null identifier, and null matches the rows whose identifier is null. Spring Data JPA binds a null argument of a derived query as `IS NULL`, which gives the same result. So all clients without the header share one row (`Scenarios.AnonymousClientsShare`). Under SQL `= NULL` semantics, which the model does not take, each anonymous save would insert a new row.
- The `int` primary key is unbounded here. 32-bit overflow of the identity column is not modelled.
- `DefaultCsrfToken` rejects an empty header name, parameter name or token. The names are non-empty constants, and the generated key is taken as given.
- Concurrency between requests is not modelled. Each operation is atomic.
