/**
 * `CustomerServiceImpl`: the customer lifecycle over the customer table.
 * A customer is created ACTIVE, may be renamed while ACTIVE, and is removed
 * by switching its status to REMOVED (the row stays in the table). Among
 * ACTIVE customers, names are unique ignoring case.
 */
module CustomerService {
  import opened Wrappers
  import opened Text
  import opened CustomerEntity
  import opened CustomerRepository

  /** The two exceptions the service throws. */
  datatype Error = NotFound | AlreadyExists

  /** No two different ACTIVE customers have names that are equal ignoring case. */
  ghost predicate UniqueActiveNames(store: Store) {
    forall a, b ::
      a in store && b in store && a != b && store[a].status == ACTIVE && store[b].status == ACTIVE
      ==> !EqualsIgnoreCase(store[a].name, store[b].name)
  }

  /** The customer `id` exists and is not REMOVED: the lookups by id see it. */
  predicate Visible(store: Store, id: Id) {
    id in store && store[id].status == ACTIVE
  }

  /** Some ACTIVE customer other than `excluded` has `name`, ignoring case. */
  ghost predicate NameTaken(store: Store, name: string, excluded: Option<Id>) {
    exists k :: k in store && store[k].status == ACTIVE && EqualsIgnoreCase(store[k].name, name) && excluded != Some(k)
  }

  /**
   * How the table may change from `before` to `after`: no row disappears, no
   * row changes its id or created time, and no REMOVED row becomes ACTIVE again.
   */
  ghost predicate Evolves(before: Store, after: Store) {
    forall k :: k in before ==>
      && k in after
      && after[k].id == before[k].id
      && after[k].createdTime == before[k].createdTime
      && (before[k].status == REMOVED ==> after[k].status == REMOVED)
  }

  /** Every step of `history` is a permitted change of the table. */
  ghost predicate IsRun(history: seq<Store>) {
    forall i :: 0 < i < |history| ==> Evolves(history[i - 1], history[i])
  }

  /** Along any run, a REMOVED customer stays in the table and stays REMOVED. */
  lemma {:induction false} RemovedIsTerminal(history: seq<Store>, k: Id)
    requires IsRun(history) && 0 < |history|
    requires k in history[0] && history[0][k].status == REMOVED
    ensures k in history[|history| - 1] && history[|history| - 1][k].status == REMOVED
  {
    if 1 < |history| {
      var prefix := history[..|history| - 1];
      assert IsRun(prefix) by {
        forall i | 0 < i < |prefix|
          ensures Evolves(prefix[i - 1], prefix[i])
        {
          assert prefix[i - 1] == history[i - 1] && prefix[i] == history[i];
        }
      }
      RemovedIsTerminal(prefix, k);
      assert Evolves(history[|history| - 2], history[|history| - 1]);
    }
  }

  /**
   * Under the invariant, the name lookups of the repository match at most one
   * row (so their `Optional` result is well defined), and they match one
   * exactly when the name is taken by another ACTIVE customer.
   */
  lemma NamedLookupReflectsStore(store: Store, n: nat, name: string, excluded: Option<Id>)
    requires WellKeyed(store) && UniqueActiveNames(store)
    requires forall k :: k in store ==> 1 <= k <= n
    ensures AtMostOne(Rows(store, n), NamedPredicate(name, ACTIVE, excluded))
    ensures |Select(Rows(store, n), NamedPredicate(name, ACTIVE, excluded))| <= 1
    ensures Select(Rows(store, n), NamedPredicate(name, ACTIVE, excluded)) != [] <==> NameTaken(store, name, excluded)
  {
    var rows := Rows(store, n);
    var p := NamedPredicate(name, ACTIVE, excluded);
    RowsContents(store, n);
    forall i, j | 0 <= i < j < |rows|
      ensures !(p(rows[i]) && p(rows[j]))
    {
      assert rows[i] in rows && rows[j] in rows;
      assert rows[i].id != rows[j].id;
    }
    SelectAtMostOne(rows, p);
    SelectEmpty(rows, p);
    if NameTaken(store, name, excluded) {
      var k :| k in store && store[k].status == ACTIVE && EqualsIgnoreCase(store[k].name, name) && excluded != Some(k);
      assert store[k] in rows && p(store[k]);
    }
  }

  /** Inserting an ACTIVE customer whose name is free keeps names unique. */
  lemma InsertKeepsNamesUnique(store: Store, c: Customer)
    requires UniqueActiveNames(store)
    requires c.id !in store && !NameTaken(store, c.name, None)
    ensures UniqueActiveNames(store[c.id := c])
  {
  }

  /** Renaming a customer to a name no other ACTIVE customer holds keeps names unique. */
  lemma RenameKeepsNamesUnique(store: Store, id: Id, name: string, phone: string, now: Time)
    requires UniqueActiveNames(store)
    requires id in store && !NameTaken(store, name, Some(id))
    ensures UniqueActiveNames(store[id := store[id].(name := name, phone := phone, updatedTime := Some(now))])
  {
  }

  /** Removing a customer keeps names unique. */
  lemma RemoveKeepsNamesUnique(store: Store, id: Id, now: Time)
    requires UniqueActiveNames(store)
    requires id in store
    ensures UniqueActiveNames(store[id := store[id].(status := REMOVED, updatedTime := Some(now))])
  {
  }

  /** A visible customer may be renamed to its own name in any letter case: no other ACTIVE customer holds it. */
  lemma OwnNameNeverCollides(store: Store, id: Id, name: string)
    requires UniqueActiveNames(store)
    requires Visible(store, id) && EqualsIgnoreCase(name, store[id].name)
    ensures !NameTaken(store, name, Some(id))
  {
  }

  /** Once a customer is removed, its name is free again for a new customer. */
  lemma RemovalFreesName(store: Store, id: Id, now: Time)
    requires UniqueActiveNames(store)
    requires Visible(store, id)
    ensures !NameTaken(store[id := store[id].(status := REMOVED, updatedTime := Some(now))], store[id].name, None)
  {
    var after := store[id := store[id].(status := REMOVED, updatedTime := Some(now))];
    forall k | k in after && after[k].status == ACTIVE
      ensures !EqualsIgnoreCase(after[k].name, store[id].name)
    {
      assert k != id && after[k] == store[k];
    }
  }

  /** The listing's stream map: every row projected through `ToDto`, in order. */
  function ToDtos(customers: seq<Customer>): seq<CustomerDto> {
    seq(|customers|, i requires 0 <= i < |customers| => ToDto(customers[i]))
  }

  /** What `getAllCustomers` returns for a page of `filterCustomers`: nothing when the count is 0, else the page's DTOs. */
  function Listing(page: Page): seq<CustomerDto> {
    if page.totalElements == 0 then [] else ToDtos(page.content)
  }

  /** Every listed DTO is the projection of a stored row that passes the filter. */
  lemma ListingRowsMatch(store: Store, n: nat, name: Option<string>, phone: Option<string>, status: string,
                         pageable: Pageable)
    requires WellKeyed(store) && 0 < pageable.size
    ensures forall d :: d in Listing(FilterCustomers(Rows(store, n), name, phone, status, pageable)) ==>
      exists k :: k in store && FilterMatches(store[k], name, phone, status) && d == ToDto(store[k])
  {
    var page := FilterCustomers(Rows(store, n), name, phone, status, pageable);
    var listed := Listing(page);
    RowsContents(store, n);
    forall d | d in listed
      ensures exists k :: k in store && FilterMatches(store[k], name, phone, status) && d == ToDto(store[k])
    {
      var i :| 0 <= i < |listed| && listed[i] == d;
      var c := page.content[i];
      assert c in page.content;
      assert store[c.id] == c;
    }
  }

  /** The listing is in ascending id order. */
  lemma ListingInIdOrder(store: Store, n: nat, name: Option<string>, phone: Option<string>, status: string,
                         pageable: Pageable)
    requires WellKeyed(store) && 0 < pageable.size
    ensures var listed := Listing(FilterCustomers(Rows(store, n), name, phone, status, pageable));
      forall i, j :: 0 <= i < j < |listed| ==> listed[i].id < listed[j].id
  {
    RowsContents(store, n);
    SelectSorted(Rows(store, n), FilterPredicate(name, phone, status));
  }

  /** When no stored row passes the filter, the listing is empty rather than an error. */
  lemma ListingEmptyWithoutMatches(store: Store, n: nat, name: Option<string>, phone: Option<string>, status: string,
                                   pageable: Pageable)
    requires WellKeyed(store) && 0 < pageable.size
    ensures (forall k :: k in store ==> !FilterMatches(store[k], name, phone, status)) ==>
      Listing(FilterCustomers(Rows(store, n), name, phone, status, pageable)) == []
  {
    RowsContents(store, n);
    SelectEmpty(Rows(store, n), FilterPredicate(name, phone, status));
  }

  /** When every row satisfying `p` fits on page 0, page 0 holds every stored row satisfying `p`. */
  lemma FirstPageHoldsAll(store: Store, n: nat, p: Customer -> bool, pageable: Pageable, k: Id)
    requires WellKeyed(store) && 0 < pageable.size && pageable.page == 0
    requires |Select(Rows(store, n), p)| <= pageable.size
    requires k in store && 1 <= k <= n && p(store[k])
    ensures ToDto(store[k]) in ToDtos(PageContent(Select(Rows(store, n), p), pageable))
  {
    var matches := Select(Rows(store, n), p);
    RowsContents(store, n);
    assert store[k] in matches;
    var i :| 0 <= i < |matches| && matches[i] == store[k];
    assert ToDtos(matches)[i] == ToDto(store[k]);
  }

  /** When every match fits on the first page, the first page lists every matching row. */
  lemma FirstPageListsAllMatches(store: Store, n: nat, name: Option<string>, phone: Option<string>, status: string,
                                 pageable: Pageable)
    requires WellKeyed(store) && 0 < pageable.size
    requires forall k :: k in store ==> 1 <= k <= n
    ensures var page := FilterCustomers(Rows(store, n), name, phone, status, pageable);
      pageable.page == 0 && page.totalElements <= pageable.size ==>
      forall k :: k in store && FilterMatches(store[k], name, phone, status) ==> ToDto(store[k]) in Listing(page)
  {
    var page := FilterCustomers(Rows(store, n), name, phone, status, pageable);
    var p := FilterPredicate(name, phone, status);
    if pageable.page == 0 && page.totalElements <= pageable.size {
      forall k | k in store && FilterMatches(store[k], name, phone, status)
        ensures ToDto(store[k]) in Listing(page)
      {
        assert p(store[k]);
        FirstPageHoldsAll(store, n, p, pageable, k);
      }
    }
  }

  /** The listing is the requested page of the matching rows, each projected through `ToDto`. */
  lemma ListingIsPageOfMatches(store: Store, n: nat, name: Option<string>, phone: Option<string>, status: string,
                               pageable: Pageable)
    requires 0 < pageable.size
    ensures var listed := Listing(FilterCustomers(Rows(store, n), name, phone, status, pageable));
      var matches := Select(Rows(store, n), FilterPredicate(name, phone, status));
      && |listed| == PageLength(|matches|, pageable)
      && forall i :: 0 <= i < |listed| ==>
           pageable.page * pageable.size + i < |matches| && listed[i] == ToDto(matches[pageable.page * pageable.size + i])
  {
    var page := FilterCustomers(Rows(store, n), name, phone, status, pageable);
    if page.totalElements == 0 {
      assert Select(Rows(store, n), FilterPredicate(name, phone, status)) == [];
    }
  }

  /** What `getAllCustomers` promises about the rows of one page of `filterCustomers`. */
  lemma ListingSpec(store: Store, n: nat, name: Option<string>, phone: Option<string>, status: string,
                    pageable: Pageable)
    requires WellKeyed(store) && 0 < pageable.size
    requires forall k :: k in store ==> 1 <= k <= n
    ensures var listed := Listing(FilterCustomers(Rows(store, n), name, phone, status, pageable));
      var matches := Select(Rows(store, n), FilterPredicate(name, phone, status));
      && |listed| == PageLength(|matches|, pageable)
      && forall i :: 0 <= i < |listed| ==>
           pageable.page * pageable.size + i < |matches| && listed[i] == ToDto(matches[pageable.page * pageable.size + i])
    ensures forall d :: d in Listing(FilterCustomers(Rows(store, n), name, phone, status, pageable)) ==>
      exists k :: k in store && FilterMatches(store[k], name, phone, status) && d == ToDto(store[k])
    ensures forall d :: d in Listing(FilterCustomers(Rows(store, n), name, phone, status, pageable)) ==>
      d.status == status
    ensures |Listing(FilterCustomers(Rows(store, n), name, phone, status, pageable))| <= pageable.size
  {
    ListingIsPageOfMatches(store, n, name, phone, status, pageable);
    ListingRowsMatch(store, n, name, phone, status, pageable);
  }

  /** The rest of what `getAllCustomers` promises: no match gives an empty list, id order, a complete first page. */
  lemma ListingShapeSpec(store: Store, n: nat, name: Option<string>, phone: Option<string>, status: string,
                         pageable: Pageable)
    requires WellKeyed(store) && 0 < pageable.size
    requires forall k :: k in store ==> 1 <= k <= n
    ensures (forall k :: k in store ==> !FilterMatches(store[k], name, phone, status)) ==>
      Listing(FilterCustomers(Rows(store, n), name, phone, status, pageable)) == []
    ensures var listed := Listing(FilterCustomers(Rows(store, n), name, phone, status, pageable));
      forall i, j :: 0 <= i < j < |listed| ==> listed[i].id < listed[j].id
    ensures var page := FilterCustomers(Rows(store, n), name, phone, status, pageable);
      pageable.page == 0 && page.totalElements <= pageable.size ==>
      forall k :: k in store && FilterMatches(store[k], name, phone, status) ==> ToDto(store[k]) in Listing(page)
  {
    ListingInIdOrder(store, n, name, phone, status, pageable);
    ListingEmptyWithoutMatches(store, n, name, phone, status, pageable);
    FirstPageListsAllMatches(store, n, name, phone, status, pageable);
  }

  /** The status a listing uses: the requested one, ACTIVE when none is given. */
  function EffectiveStatus(status: Option<CustomerStatus>): CustomerStatus {
    if status.None? then ACTIVE else status.value
  }

  class CustomerServiceImpl {
    /** The customer table. */
    var store: Store
    /** The last id the table handed out; ids start at 1. */
    var lastId: nat

    /** Ids 1 to `lastId` are all stored (nothing is ever physically deleted), and ACTIVE names are unique. */
    ghost predicate Valid()
      reads this
    {
      && (forall k :: k in store <==> 1 <= k <= lastId)
      && WellKeyed(store)
      && UniqueActiveNames(store)
    }

    /** An empty table. */
    constructor ()
      ensures Valid() && store == map[] && lastId == 0
    {
      store := map[];
      lastId := 0;
    }

    /** The table's rows in id order, as the queries read them. */
    function Table(): seq<Customer>
      reads this
    {
      Rows(store, lastId)
    }

    /** `findCustomerById`: the customer, or NotFound when it is absent or REMOVED. */
    method FindCustomerById(id: Id) returns (r: Result<Customer, Error>)
      ensures r.Failure? <==> !Visible(store, id)
      ensures r.Failure? ==> r.error == NotFound
      ensures r.Success? ==> id in store && r.value == store[id]
    {
      if id !in store {
        return Failure(NotFound);
      }
      var customer := store[id];
      if customer.status == REMOVED {
        return Failure(NotFound);
      }
      return Success(customer);
    }

    /**
     * `validateExistingCustomer(id, name)`: AlreadyExists when an ACTIVE
     * customer, other than `id` when one is given, has `name` ignoring case.
     */
    method ValidateExistingCustomer(id: Option<Id>, name: string) returns (r: Outcome<Error>)
      requires Valid()
      ensures r.Fail? <==> NameTaken(store, name, id)
      ensures r.Fail? ==> r.error == AlreadyExists
    {
      var found: Result<Option<Customer>, LookupError>;
      if id.Some? {
        found := FindCustomerByIdNotAndNameIgnoringCaseAndStatus(Table(), id.value, name, ACTIVE);
      } else {
        found := FindCustomerByNameIgnoringCaseAndStatus(Table(), name, ACTIVE);
      }
      // the invariant rules out the single-result query's failure on several matches
      NamedLookupReflectsStore(store, lastId, name, id);
      if found.value.Some? {
        r := Fail(AlreadyExists);
      } else {
        r := Pass;
      }
    }

    /** `validateExistingCustomer(name)`: AlreadyExists when any ACTIVE customer has `name` ignoring case. */
    method ValidateExistingName(name: string) returns (r: Outcome<Error>)
      requires Valid()
      ensures r.Fail? <==> NameTaken(store, name, None)
      ensures r.Fail? ==> r.error == AlreadyExists
    {
      r := ValidateExistingCustomer(None, name);
    }

    /**
     * `createCustomer`: AlreadyExists, changing nothing, when an ACTIVE customer
     * has the name ignoring case; otherwise one new ACTIVE row under a fresh id,
     * created `now`, never updated, and every other row untouched.
     */
    method CreateCustomer(name: string, phone: string, now: Time) returns (r: Result<CustomerDto, Error>)
      requires Valid()
      modifies this
      ensures Valid()
      ensures r.Failure? <==> old(NameTaken(store, name, None))
      ensures r.Failure? ==> r.error == AlreadyExists && store == old(store) && lastId == old(lastId)
      ensures r.Success? ==>
        && lastId == old(lastId) + 1
        && lastId !in old(store)
        && store == old(store)[lastId := Customer(lastId, name, phone, ACTIVE, now, None)]
        && r.value == ToDto(store[lastId])
      ensures Evolves(old(store), store)
    {
      var check := ValidateExistingName(name);
      if check.Fail? {
        return Failure(check.error);
      }
      var customer := Customer(lastId + 1, name, phone, ACTIVE, now, None);
      InsertKeepsNamesUnique(store, customer);
      lastId := lastId + 1;
      store := store[lastId := customer];
      r := Success(ToDto(customer));
    }

    /**
     * `getAllCustomers`: the requested page of the customers with the given
     * status (ACTIVE when none is given) that match the name and phone
     * filters, in id order, as DTOs; an empty list when nothing matches.
     */
    method GetAllCustomers(name: Option<string>, phone: Option<string>, status: Option<CustomerStatus>,
                           pageable: Pageable) returns (r: seq<CustomerDto>)
      requires Valid()
      requires 0 < pageable.size
      ensures var wanted := StatusName(EffectiveStatus(status));
        var matches := Select(Table(), FilterPredicate(name, phone, wanted));
        && |r| == PageLength(|matches|, pageable)
        && forall i :: 0 <= i < |r| ==>
             pageable.page * pageable.size + i < |matches| && r[i] == ToDto(matches[pageable.page * pageable.size + i])
      ensures var wanted := StatusName(EffectiveStatus(status));
        forall d :: d in r ==>
          exists k :: k in store && FilterMatches(store[k], name, phone, wanted) && d == ToDto(store[k])
      ensures forall d :: d in r ==> d.status == StatusName(EffectiveStatus(status))
      ensures |r| <= pageable.size
      ensures (forall k :: k in store ==> !FilterMatches(store[k], name, phone, StatusName(EffectiveStatus(status))))
        ==> r == []
      ensures forall i, j :: 0 <= i < j < |r| ==> r[i].id < r[j].id
      ensures var wanted := StatusName(EffectiveStatus(status));
        pageable.page == 0 && FilterCustomers(Table(), name, phone, wanted, pageable).totalElements <= pageable.size
        ==> forall k :: k in store && FilterMatches(store[k], name, phone, wanted) ==> ToDto(store[k]) in r
    {
      var wanted := StatusName(EffectiveStatus(status));
      var result := FilterCustomers(Table(), name, phone, wanted, pageable);
      if result.totalElements == 0 {
        r := [];
      } else {
        r := ToDtos(result.content);
      }
      assert r == Listing(result);
      ListingSpec(store, lastId, name, phone, wanted, pageable);
      ListingShapeSpec(store, lastId, name, phone, wanted, pageable);
    }

    /** `getCustomer`: the DTO of a visible customer, NotFound for an absent or REMOVED one. */
    method GetCustomer(id: Id) returns (r: Result<CustomerDto, Error>)
      ensures r.Failure? <==> !Visible(store, id)
      ensures r.Failure? ==> r.error == NotFound
      ensures r.Success? ==> id in store && r.value == ToDto(store[id]) && r.value.status == "ACTIVE"
    {
      var found := FindCustomerById(id);
      if found.Failure? {
        return Failure(found.error);
      }
      r := Success(ToDto(found.value));
    }

    /**
     * `updateCustomer`: NotFound for an absent or REMOVED id, checked first;
     * then AlreadyExists when a different ACTIVE customer has the name ignoring
     * case; otherwise only that row's name, phone and updated time change.
     */
    method UpdateCustomer(id: Id, name: string, phone: string, now: Time) returns (r: Result<CustomerDto, Error>)
      requires Valid()
      modifies this
      ensures Valid() && lastId == old(lastId)
      ensures r.Failure? <==> old(!Visible(store, id) || NameTaken(store, name, Some(id)))
      ensures r.Failure? ==> r.error == if old(Visible(store, id)) then AlreadyExists else NotFound
      ensures r.Failure? ==> store == old(store)
      ensures r.Success? ==>
        && store == old(store)[id := old(store)[id].(name := name, phone := phone, updatedTime := Some(now))]
        && r.value == ToDto(store[id])
      ensures Evolves(old(store), store)
    {
      var found := FindCustomerById(id);
      if found.Failure? {
        return Failure(found.error);
      }
      var check := ValidateExistingCustomer(Some(id), name);
      if check.Fail? {
        return Failure(check.error);
      }
      var existing := found.value.(name := name, phone := phone, updatedTime := Some(now));
      RenameKeepsNamesUnique(store, id, name, phone, now);
      store := store[id := existing];
      r := Success(ToDto(existing));
    }

    /**
     * `deleteCustomer`: NotFound for an absent or already REMOVED id;
     * otherwise the row stays, with status REMOVED and updated time `now`.
     */
    method DeleteCustomer(id: Id, now: Time) returns (r: Outcome<Error>)
      requires Valid()
      modifies this
      ensures Valid() && lastId == old(lastId)
      ensures r.Fail? <==> !old(Visible(store, id))
      ensures r.Fail? ==> r.error == NotFound && store == old(store)
      ensures r.Pass? ==> store == old(store)[id := old(store)[id].(status := REMOVED, updatedTime := Some(now))]
      ensures Evolves(old(store), store)
    {
      var found := FindCustomerById(id);
      if found.Failure? {
        return Fail(found.error);
      }
      var customer := found.value.(status := REMOVED, updatedTime := Some(now));
      RemoveKeepsNamesUnique(store, id, now);
      store := store[id := customer];
      r := Pass;
    }
  }
}
