/**
 * Request sequences through `CustomCSRFTokenRepository` over a fresh, empty
 * `token` table, as the application's endpoints drive it.
 */
module Scenarios {
  import opened Wrappers
  import opened Store
  import opened Requests
  import opened CsrfRepository

  /**
   * One client (`x_id: id`): the first load finds nothing, a generated token
   * is saved and loaded back, and a second token replaces it in the same row.
   */
  method OneClient(id: string, key1: string, key2: string)
    returns (before: Option<CsrfToken>, afterFirst: Option<CsrfToken>, afterSecond: Option<CsrfToken>,
             rowCount: nat, attribute: Option<string>)
    ensures before == None
    ensures afterFirst == Some(DefaultCsrfToken(key1))
    ensures afterSecond == Some(DefaultCsrfToken(key2))
    ensures rowCount == 1
    ensures attribute == Some(key2)
  {
    var store := new JpaTokenRepository();
    var repo := new CustomCsrfTokenRepository(store);
    var request := new Request(map[IdentifierHeader := id]);
    var t0 := store.table;

    before := repo.LoadToken(request);
    var first := repo.GenerateToken(request, key1);
    repo.SaveToken(first, request);
    SaveThenLoad(t0, Some(id), key1);
    afterFirst := repo.LoadToken(request);

    var t1 := store.table;
    var second := repo.GenerateToken(request, key2);
    repo.SaveToken(second, request);
    SecondSaveWins(t0, Some(id), key1, key2);
    UpsertedShape(t0, Some(id), key1);
    afterSecond := repo.LoadToken(request);
    rowCount := |store.rows|;
    attribute := if CsrfAttributeName in request.attributes then Some(request.attributes[CsrfAttributeName]) else None;
  }

  /** Two clients with different `x_id` headers do not see each other's token. */
  method TwoClients(a: string, b: string, key: string)
    returns (loadedByA: Option<CsrfToken>, loadedByB: Option<CsrfToken>)
    requires a != b
    ensures loadedByA == Some(DefaultCsrfToken(key))
    ensures loadedByB == None
  {
    var store := new JpaTokenRepository();
    var repo := new CustomCsrfTokenRepository(store);
    var requestA := new Request(map[IdentifierHeader := a]);
    var requestB := new Request(map[IdentifierHeader := b]);
    var t0 := store.table;

    var token := repo.GenerateToken(requestA, key);
    repo.SaveToken(token, requestA);
    SaveThenLoad(t0, Some(a), key);
    SaveLeavesOthers(t0, Some(a), key, Some(b));
    loadedByA := repo.LoadToken(requestA);
    loadedByB := repo.LoadToken(requestB);
  }

  /**
   * Requests without an `x_id` header all look up the null identifier, so a
   * token saved by one is loaded by any other.
   */
  method AnonymousClientsShare(key: string) returns (loadedByOther: Option<CsrfToken>)
    ensures loadedByOther == Some(DefaultCsrfToken(key))
  {
    var store := new JpaTokenRepository();
    var repo := new CustomCsrfTokenRepository(store);
    var one := new Request(map[]);
    var other := new Request(map["x-id" := "not the identifier header"]);
    var t0 := store.table;

    var token := repo.GenerateToken(one, key);
    repo.SaveToken(token, one);
    SaveThenLoad(t0, None, key);
    loadedByOther := repo.LoadToken(other);
  }
}
