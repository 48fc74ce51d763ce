/**
 * `CustomCSRFTokenRepository`: the CSRF token repository that keeps one
 * token per client identifier (request header `x_id`) in the `token` table
 * and mirrors the value into the request attribute `_csrf`.
 */
module CsrfRepository {
  import opened Wrappers
  import opened Tokens
  import opened Store
  import opened Requests

  /** Header name carried by every token this repository builds. */
  const CsrfHeaderName: string := "X-CSRF-TOKEN"
  /** Parameter name carried by every token this repository builds. */
  const CsrfParameterName: string := "_csrf"
  /** Request attribute that `injectCsrfToken` writes. */
  const CsrfAttributeName: string := "_csrf"
  /** Request header that identifies the client. */
  const IdentifierHeader: string := "x_id"

  /** Spring's `CsrfToken` as built by `DefaultCsrfToken`. */
  datatype CsrfToken = CsrfToken(headerName: string, parameterName: string, token: string)

  /** `new DefaultCsrfToken("X-CSRF-TOKEN", "_csrf", value)`. */
  function DefaultCsrfToken(value: string): (t: CsrfToken)
    ensures t.headerName == "X-CSRF-TOKEN" && t.parameterName == "_csrf" && t.token == value
  {
    CsrfToken(CsrfHeaderName, CsrfParameterName, value)
  }

  /** Rows `j` and `k` do not share an identifier. */
  ghost predicate IdentifiersDiffer(rows: seq<Row>, j: int, k: int) {
    0 <= j < k < |rows| ==> rows[j].identifier != rows[k].identifier
  }

  /**
   * What the repository keeps true of the table: at most one row per
   * identifier (the `Optional` query relies on it) and every row carries a
   * value. The pairwise part is instantiated only where a proof names
   * `IdentifiersDiffer`.
   */
  ghost predicate Consistent(t: Table) {
    && (forall j, k {:trigger IdentifiersDiffer(t.rows, j, k)} :: IdentifiersDiffer(t.rows, j, k))
    && (forall k | 0 <= k < |t.rows| :: t.rows[k].token.Some?)
  }

  /** In a consistent table, Lookup never meets two rows for one identifier. */
  lemma ConsistentLookupNotAmbiguous(t: Table, i: Option<string>)
    requires Consistent(t)
    ensures !Lookup(t.rows, i).NonUnique?
  {
    forall j, k | 0 <= j < k < |t.rows| && t.rows[j].identifier == i
      ensures t.rows[k].identifier != i
    {
      assert IdentifiersDiffer(t.rows, j, k);
    }
  }

  /** Giving one row a new value keeps the identifiers unique and the ids well formed. */
  lemma ReplaceValueKeepsWellFormed(t: Table, k: nat, v: string)
    requires Consistent(t) && k < |t.rows|
    ensures var r := Table(t.rows[k := t.rows[k].(token := Some(v))], t.nextId);
      Consistent(r) && (Keyed(t) ==> Keyed(r))
  {
    var r := Table(t.rows[k := t.rows[k].(token := Some(v))], t.nextId);
    forall j, m ensures IdentifiersDiffer(r.rows, j, m) {
      assert IdentifiersDiffer(t.rows, j, m);
    }
    if Keyed(t) {
      forall j, m ensures IdsIncrease(r.rows, j, m) {
        assert IdsIncrease(t.rows, j, m);
      }
    }
  }

  /**
   * Appending a row with a value, the next id and an identifier no row has
   * keeps the identifiers unique and the ids well formed.
   */
  lemma AppendUnseenKeepsWellFormed(t: Table, i: Option<string>, v: string)
    requires Consistent(t) && Lookup(t.rows, i).Empty?
    ensures var r := Table(t.rows + [Row(t.nextId, i, Some(v))], t.nextId + 1);
      Consistent(r) && (Keyed(t) ==> Keyed(r))
  {
    var r := Table(t.rows + [Row(t.nextId, i, Some(v))], t.nextId + 1);
    forall j, k ensures IdentifiersDiffer(r.rows, j, k) {
      if 0 <= j < k < |r.rows| && k < |t.rows| {
        assert IdentifiersDiffer(t.rows, j, k);
      }
    }
    if Keyed(t) {
      InsertKeepsKeyed(t, Row(t.nextId, i, Some(v)));
    }
  }

  /**
   * The table after `saveToken` of value `v` for identifier `i`: the row for
   * `i` gets the new value in place, or a new row is inserted.
   */
  function Upserted(t: Table, i: Option<string>, v: string): (r: Table)
    requires Consistent(t)
    ensures Consistent(r)
    ensures Keyed(t) ==> Keyed(r)
  {
    ConsistentLookupNotAmbiguous(t, i);
    var q := Lookup(t.rows, i);
    if q.Unique? then
      ReplaceValueKeepsWellFormed(t, q.value, v);
      Table(t.rows[q.value := t.rows[q.value].(token := Some(v))], t.nextId)
    else
      AppendUnseenKeepsWellFormed(t, i, v);
      Table(t.rows + [Row(t.nextId, i, Some(v))], t.nextId + 1)
  }

  /**
   * What a save does to the table: a new row with the next id only for an
   * unseen identifier; ids and identifiers of existing rows never change;
   * rows of other identifiers are untouched; the identifier's row holds `v`.
   */
  lemma UpsertedShape(t: Table, i: Option<string>, v: string)
    requires Consistent(t)
    ensures var r := Upserted(t, i, v);
      && (Lookup(t.rows, i).Empty? ==>
            && |r.rows| == |t.rows| + 1 && r.nextId == t.nextId + 1
            && r.rows[|t.rows|] == Row(t.nextId, i, Some(v)))
      && (!Lookup(t.rows, i).Empty? ==> |r.rows| == |t.rows| && r.nextId == t.nextId)
      && (forall k | 0 <= k < |t.rows| ::
            r.rows[k].id == t.rows[k].id && r.rows[k].identifier == t.rows[k].identifier)
      && (forall k | 0 <= k < |t.rows| && t.rows[k].identifier != i :: r.rows[k] == t.rows[k])
      && (forall k | 0 <= k < |r.rows| && r.rows[k].identifier == i :: r.rows[k].token == Some(v))
  {
    ConsistentLookupNotAmbiguous(t, i);
  }

  /** The value `loadToken` finds for identifier `i`, or None when it returns null. */
  function Loaded(t: Table, i: Option<string>): (r: Option<string>)
    requires Consistent(t)
    ensures r.None? <==> forall k | 0 <= k < |t.rows| :: t.rows[k].identifier != i
    ensures r.Some? ==> exists k | 0 <= k < |t.rows| :: t.rows[k].identifier == i && t.rows[k].token == r
  {
    ConsistentLookupNotAmbiguous(t, i);
    match Lookup(t.rows, i)
    case Unique(k) => t.rows[k].token
    case _ => None
  }

  /** Saving `v` for `i` and then loading `i` gives back `v`. */
  lemma SaveThenLoad(t: Table, i: Option<string>, v: string)
    requires Consistent(t)
    ensures Loaded(Upserted(t, i, v), i) == Some(v)
  {
    var r := Upserted(t, i, v);
    UpsertedShape(t, i, v);
    var k := Lookup(r.rows, i).value;
    assert r.rows[k].token == Some(v);
  }

  /** Saving for `i` does not change what any other identifier loads. */
  lemma SaveLeavesOthers(t: Table, i: Option<string>, v: string, j: Option<string>)
    requires Consistent(t) && j != i
    ensures Loaded(Upserted(t, i, v), j) == Loaded(t, j)
  {
    var r := Upserted(t, i, v);
    UpsertedShape(t, i, v);
    match Lookup(t.rows, j)
    case Unique(k) =>
      assert r.rows[k] == t.rows[k];
    case Empty =>
    case NonUnique =>
  }

  /** A second save for the same identifier replaces the first value. */
  lemma SecondSaveWins(t: Table, i: Option<string>, v1: string, v2: string)
    requires Consistent(t)
    ensures Loaded(Upserted(Upserted(t, i, v1), i, v2), i) == Some(v2)
    ensures |Upserted(Upserted(t, i, v1), i, v2).rows| == |Upserted(t, i, v1).rows|
  {
    var r1 := Upserted(t, i, v1);
    SaveThenLoad(r1, i, v2);
    SaveThenLoad(t, i, v1);
    UpsertedShape(r1, i, v2);
  }

  /** One client request to `saveToken`: the identifier header and the token value. */
  datatype SaveRequest = SaveRequest(identifier: Option<string>, value: string)

  /** The table after a sequence of `saveToken` calls, applied in order. */
  function SaveAll(t: Table, saves: seq<SaveRequest>): (r: Table)
    requires Consistent(t)
    ensures Consistent(r)
    decreases |saves|
  {
    if saves == [] then t
    else
      var last := saves[|saves| - 1];
      Upserted(SaveAll(t, saves[..|saves| - 1]), last.identifier, last.value)
  }

  /** The value of the last request in `saves` for identifier `i`, if any. */
  function LastSaved(saves: seq<SaveRequest>, i: Option<string>): (r: Option<string>)
    ensures r.None? <==> forall k | 0 <= k < |saves| :: saves[k].identifier != i
    ensures r.Some? ==> exists k | 0 <= k < |saves| ::
      && saves[k].identifier == i && saves[k].value == r.value
      && forall m | k < m < |saves| :: saves[m].identifier != i
    decreases |saves|
  {
    if saves == [] then None
    else if saves[|saves| - 1].identifier == i then Some(saves[|saves| - 1].value)
    else LastSaved(saves[..|saves| - 1], i)
  }

  /**
   * After any sequence of saves, loading `i` gives the value of the last
   * save for `i`, or what the table held before when there was none.
   */
  lemma {:induction false} LoadAfterSaves(t: Table, saves: seq<SaveRequest>, i: Option<string>)
    requires Consistent(t)
    ensures Loaded(SaveAll(t, saves), i) == if LastSaved(saves, i).Some? then LastSaved(saves, i) else Loaded(t, i)
    decreases |saves|
  {
    if saves != [] {
      var prefix := saves[..|saves| - 1];
      var last := saves[|saves| - 1];
      LoadAfterSaves(t, prefix, i);
      if last.identifier == i {
        SaveThenLoad(SaveAll(t, prefix), i, last.value);
      } else {
        SaveLeavesOthers(SaveAll(t, prefix), last.identifier, last.value, i);
      }
    }
  }

  /** Every sequence of saves keeps the ids well formed and one row per identifier. */
  lemma {:induction false} SavesKeepTableWellFormed(t: Table, saves: seq<SaveRequest>)
    requires Consistent(t) && Keyed(t)
    ensures Keyed(SaveAll(t, saves)) && Consistent(SaveAll(t, saves))
    ensures |t.rows| <= |SaveAll(t, saves).rows|
    ensures forall k | 0 <= k < |t.rows| ::
      SaveAll(t, saves).rows[k].id == t.rows[k].id && SaveAll(t, saves).rows[k].identifier == t.rows[k].identifier
    decreases |saves|
  {
    if saves != [] {
      var prefix := saves[..|saves| - 1];
      var last := saves[|saves| - 1];
      SavesKeepTableWellFormed(t, prefix);
      UpsertedShape(SaveAll(t, prefix), last.identifier, last.value);
    }
  }

  class CustomCsrfTokenRepository {
    /** The injected JPA repository. */
    const store: JpaTokenRepository

    constructor (store: JpaTokenRepository)
      requires store.Valid() && Consistent(store.table)
      ensures this.store == store && Valid()
    {
      this.store := store;
    }

    ghost predicate Valid()
      reads this, store, store.rows
    {
      store.Valid() && Consistent(store.table)
    }

    /** `generateToken`: `key` stands for the output of the external key generator. */
    method GenerateToken(request: Request, key: string) returns (t: CsrfToken)
      ensures t.headerName == "X-CSRF-TOKEN" && t.parameterName == "_csrf"
      ensures t.token == key
    {
      t := DefaultCsrfToken(key);
    }

    /** `injectCsrfToken`: sets request attribute `_csrf` to the value. */
    method InjectCsrfToken(request: Request, csrfToken: Option<string>)
      modifies request
      ensures csrfToken.Some? ==> request.attributes == old(request.attributes)["_csrf" := csrfToken.value]
      ensures csrfToken.None? ==> request.attributes == old(request.attributes) - {"_csrf"}
    {
      request.SetAttribute(CsrfAttributeName, csrfToken);
    }

    /**
     * `saveToken`: upsert of the token's value under the request's `x_id`
     * header, null included, then the value is injected into the request.
     * For a known identifier the managed entity is changed in place and no
     * row is added.
     */
    method SaveToken(csrfToken: CsrfToken, request: Request)
      requires Valid()
      modifies store, store.rows, request
      ensures Valid()
      ensures store.table == Upserted(old(store.table), request.GetHeader("x_id"), csrfToken.token)
      ensures request.attributes == old(request.attributes)["_csrf" := csrfToken.token]
      ensures Lookup(old(store.table).rows, request.GetHeader("x_id")).Unique? ==> store.rows == old(store.rows)
      ensures !Lookup(old(store.table).rows, request.GetHeader("x_id")).Unique? ==>
        exists t: Token | fresh(t) :: store.rows == old(store.rows) + [t]
    {
      var identifier := request.GetHeader(IdentifierHeader);
      var existingToken := store.FindTokenByIdentifier(identifier);
      if existingToken.Unique? {
        var token := existingToken.value;
        UpdateManaged(token, identifier, Lookup(store.table.rows, identifier).value, csrfToken.token);
        InjectCsrfToken(request, token.GetToken());
      } else {
        var token := InsertNew(identifier, csrfToken.token);
        InjectCsrfToken(request, token.GetToken());
      }
    }

    /**
     * The new-row branch of `saveToken`: a fresh `Token` entity with the
     * value and the identifier, handed to `save`.
     */
    method InsertNew(i: Option<string>, v: string) returns (token: Token)
      requires Valid() && !Lookup(store.table.rows, i).Unique?
      modifies store
      ensures Valid() && token.GetToken() == Some(v)
      ensures store.table == Upserted(old(store.table), i, v)
      ensures store.rows == old(store.rows) + [token] && fresh(token)
    {
      ConsistentLookupNotAmbiguous(store.table, i);
      UpsertedShape(store.table, i, v);
      token := new Token();
      token.SetToken(Some(v));
      token.SetIdentifier(i);
      var _ := store.Save(token);
    }

    /**
     * The existing-row branch of `saveToken`: `setToken` on the managed
     * entity found at position `k` for identifier `i`; `store.table` records
     * the entity's new state.
     */
    method UpdateManaged(token: Token, i: Option<string>, ghost k: nat, v: string)
      requires Valid() && Lookup(store.table.rows, i) == Unique(k) && token == store.rows[k]
      modifies token, store`table
      ensures Valid() && token.GetToken() == Some(v)
      ensures store.table == Upserted(old(store.table), i, v)
    {
      token.SetToken(Some(v));
      store.table := Upserted(store.table, i, v);
      forall m | 0 <= m < |store.rows| && m != k
        ensures store.rows[m] != token
      {
        KeyedIdsDistinct(old(store.table), m, k);
      }
    }

    /**
     * `loadToken`: the stored token for the request's `x_id` header, injected
     * into the request; null, with nothing injected, when there is none.
     */
    method LoadToken(request: Request) returns (r: Option<CsrfToken>)
      requires Valid()
      modifies request
      ensures Loaded(store.table, request.GetHeader("x_id")).None? ==>
        r.None? && request.attributes == old(request.attributes)
      ensures Loaded(store.table, request.GetHeader("x_id")).Some? ==>
        var v := Loaded(store.table, request.GetHeader("x_id")).value;
        && r == Some(CsrfToken("X-CSRF-TOKEN", "_csrf", v))
        && request.attributes == old(request.attributes)["_csrf" := v]
    {
      var identifier := request.GetHeader(IdentifierHeader);
      var existingToken := store.FindTokenByIdentifier(identifier);
      if existingToken.Unique? {
        var token := existingToken.value;
        InjectCsrfToken(request, token.GetToken());
        return Some(DefaultCsrfToken(token.GetToken().value));
      }
      return None;
    }
  }
}
