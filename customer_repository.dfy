/**
 * The queries of `CustomerRepository`: the filtered, paged listing (with its
 * count query) and the two derived single-result finders by name and status.
 * The table is a map from id to row; queries read it in ascending id order.
 */
module CustomerRepository {
  import opened Wrappers
  import opened Text
  import opened CustomerEntity

  /** The `customer` table, keyed by id. */
  type Store = map<Id, Customer>

  /** Every row is stored under its own id. */
  predicate WellKeyed(store: Store) {
    forall k :: k in store ==> store[k].id == k
  }

  /** The rows with ids 1 to `n`, in ascending id order. */
  function Rows(store: Store, n: nat): seq<Customer> {
    if n == 0 then [] else Rows(store, n - 1) + (if n in store then [store[n]] else [])
  }

  ghost predicate SortedById(rows: seq<Customer>) {
    forall i, j :: 0 <= i < j < |rows| ==> rows[i].id < rows[j].id
  }

  /** `Rows` lists exactly the stored rows with ids up to `n`, each once, in id order. */
  lemma {:induction false} RowsContents(store: Store, n: nat)
    requires WellKeyed(store)
    ensures SortedById(Rows(store, n))
    ensures forall c :: c in Rows(store, n) <==> 1 <= c.id <= n && c.id in store && store[c.id] == c
  {
    if n > 0 {
      RowsContents(store, n - 1);
      var prefix := Rows(store, n - 1);
      assert forall c :: c in prefix ==> c.id < n;
      assert Rows(store, n) == prefix + (if n in store then [store[n]] else []);
    }
  }

  /** The rows satisfying `p`, in their original order (a query's WHERE clause). */
  function Select(rows: seq<Customer>, p: Customer -> bool): (r: seq<Customer>)
    ensures |r| <= |rows|
    ensures forall c :: c in r <==> c in rows && p(c)
  {
    if rows == [] then []
    else (if p(rows[0]) then [rows[0]] else []) + Select(rows[1..], p)
  }

  /** Selecting keeps id order. */
  lemma {:induction false} SelectSorted(rows: seq<Customer>, p: Customer -> bool)
    requires SortedById(rows)
    ensures SortedById(Select(rows, p))
  {
    if rows != [] {
      SelectSorted(rows[1..], p);
      var rest := Select(rows[1..], p);
      forall c | c in rest
        ensures rows[0].id < c.id
      {
        var j :| 0 <= j < |rows[1..]| && rows[1..][j] == c;
        assert rows[j + 1] == c;
      }
    }
  }

  /** A select returns nothing exactly when no row satisfies `p`. */
  lemma SelectEmpty(rows: seq<Customer>, p: Customer -> bool)
    ensures Select(rows, p) == [] <==> forall c :: c in rows ==> !p(c)
  {
    if Select(rows, p) != [] {
      assert Select(rows, p)[0] in Select(rows, p);
    }
  }

  /** The number of rows satisfying `p` (a `SELECT COUNT` with the same WHERE clause). */
  function Count(rows: seq<Customer>, p: Customer -> bool): nat {
    if rows == [] then 0 else (if p(rows[0]) then 1 else 0) + Count(rows[1..], p)
  }

  /** A count query with the same predicate counts exactly the rows the select query returns. */
  lemma {:induction false} CountIsSelectLength(rows: seq<Customer>, p: Customer -> bool)
    ensures Count(rows, p) == |Select(rows, p)|
  {
    if rows != [] {
      CountIsSelectLength(rows[1..], p);
    }
  }

  /** No two distinct positions of `rows` both satisfy `p`. */
  predicate AtMostOne(rows: seq<Customer>, p: Customer -> bool) {
    forall i, j :: 0 <= i < j < |rows| ==> !(p(rows[i]) && p(rows[j]))
  }

  /** When at most one row satisfies `p`, a select returns at most one row. */
  lemma {:induction false} SelectAtMostOne(rows: seq<Customer>, p: Customer -> bool)
    requires AtMostOne(rows, p)
    ensures |Select(rows, p)| <= 1
  {
    if rows != [] {
      SelectAtMostOne(rows[1..], p);
      if p(rows[0]) {
        // no later row satisfies p, so the rest of the selection is empty
        forall j | 0 <= j < |rows| - 1
          ensures !p(rows[1..][j])
        {
          assert rows[1..][j] == rows[j + 1];
        }
        SelectEmpty(rows[1..], p);
      }
    }
  }

  /** Two rows satisfying `p`, at positions `i` and `j`, give a select of at least two rows. */
  lemma {:induction false} SelectBothOf(rows: seq<Customer>, p: Customer -> bool, i: nat, j: nat)
    requires i < j < |rows| && p(rows[i]) && p(rows[j])
    ensures 2 <= |Select(rows, p)|
  {
    if i == 0 {
      assert rows[1..][j - 1] == rows[j];
      assert rows[j] in Select(rows[1..], p);
    } else {
      assert rows[1..][i - 1] == rows[i] && rows[1..][j - 1] == rows[j];
      SelectBothOf(rows[1..], p, i - 1, j - 1);
    }
  }

  /** When two rows satisfy `p`, a select returns at least two rows. */
  lemma SelectSeveral(rows: seq<Customer>, p: Customer -> bool)
    requires !AtMostOne(rows, p)
    ensures 2 <= |Select(rows, p)|
  {
    var i: nat, j: nat :| i < j < |rows| && p(rows[i]) && p(rows[j]);
    SelectBothOf(rows, p, i, j);
  }

  // ----- filterCustomers -----

  /** A null name filter matches every row; otherwise the upper-cased name must contain the upper-cased filter. */
  predicate NameFilterMatches(filter: Option<string>, name: string) {
    filter.None? || Contains(Upper(name), Upper(filter.value))
  }

  /** A null phone filter matches every row; otherwise the phone must contain the filter, case-sensitively. */
  predicate PhoneFilterMatches(filter: Option<string>, phone: string) {
    filter.None? || Contains(phone, filter.value)
  }

  /** The WHERE clause shared by the select and the count query of `filterCustomers`. */
  predicate FilterMatches(c: Customer, name: Option<string>, phone: Option<string>, status: string) {
    StatusName(c.status) == status && NameFilterMatches(name, c.name) && PhoneFilterMatches(phone, c.phone)
  }

  function FilterPredicate(name: Option<string>, phone: Option<string>, status: string): Customer -> bool {
    c => FilterMatches(c, name, phone, status)
  }

  /** The filter conditions, spelled out: status equality, null-or-substring name ignoring case, null-or-substring phone. */
  lemma FilterSemantics(c: Customer, name: Option<string>, phone: Option<string>, status: CustomerStatus)
    ensures FilterMatches(c, name, phone, StatusName(status)) <==>
      && c.status == status
      && (name.None? || exists i: nat :: OccursAt(Upper(c.name), Upper(name.value), i))
      && (phone.None? || exists i: nat :: OccursAt(c.phone, phone.value, i))
  {
    StatusNameInjective(c.status, status);
    if name.Some? {
      ContainsIffOccurs(Upper(c.name), Upper(name.value));
    }
    if phone.Some? {
      ContainsIffOccurs(c.phone, phone.value);
    }
  }

  /** A page request: zero-based page index and page size (`PageRequest.of` rejects sizes below 1). */
  datatype Pageable = Pageable(page: nat, size: nat)

  /** A page of results with the totals from the count query. */
  datatype Page = Page(content: seq<Customer>, totalElements: nat, totalPages: nat)

  /** The number of pages of `size` rows needed for `total` rows. */
  function TotalPages(total: nat, size: nat): (pages: nat)
    requires 0 < size
    ensures pages == 0 <==> total == 0
    ensures total <= pages * size
    ensures 0 < pages ==> (pages - 1) * size < total
  {
    var q := (total + size - 1) / size;
    var m := (total + size - 1) % size;
    assert total + size - 1 == q * size + m;
    assert (q - 1) * size == q * size - size;
    q
  }

  /** How many of `total` matches page `pageable.page` holds: a full page, the remainder, or none past the end. */
  function PageLength(total: nat, pageable: Pageable): nat {
    var start := pageable.page * pageable.size;
    if total <= start then 0 else if total - start < pageable.size then total - start else pageable.size
  }

  /** The slice of `matches` that page `pageable.page` holds. */
  function PageContent(matches: seq<Customer>, pageable: Pageable): (content: seq<Customer>)
    requires 0 < pageable.size
    ensures |content| <= pageable.size
    ensures |content| == PageLength(|matches|, pageable)
    ensures forall c :: c in content ==> c in matches
    ensures pageable.page == 0 && |matches| <= pageable.size ==> content == matches
    ensures forall i :: 0 <= i < |content| ==>
      pageable.page * pageable.size + i < |matches| && content[i] == matches[pageable.page * pageable.size + i]
  {
    var start := pageable.page * pageable.size;
    if |matches| <= start then []
    else matches[start..if |matches| < start + pageable.size then |matches| else start + pageable.size]
  }

  /** `filterCustomers`: the matching rows of the requested page, with the count query's totals. */
  function FilterCustomers(rows: seq<Customer>, name: Option<string>, phone: Option<string>, status: string,
                           pageable: Pageable): (page: Page)
    requires 0 < pageable.size
    ensures page.totalElements == |Select(rows, FilterPredicate(name, phone, status))|
    ensures page.totalElements == 0 <==> page.totalPages == 0
    ensures page.totalPages == TotalPages(page.totalElements, pageable.size)
    ensures page.totalElements == 0 ==> page.content == []
    ensures |page.content| <= pageable.size
    ensures forall c :: c in page.content ==> c in rows && FilterMatches(c, name, phone, status)
    ensures page.content == PageContent(Select(rows, FilterPredicate(name, phone, status)), pageable)
  {
    var matches := Select(rows, FilterPredicate(name, phone, status));
    var total := Count(rows, FilterPredicate(name, phone, status));
    CountIsSelectLength(rows, FilterPredicate(name, phone, status));
    Page(PageContent(matches, pageable), total, TotalPages(total, pageable.size))
  }

  // ----- derived single-result finders -----

  /** A derived query returning `Optional` fails when more than one row matches. */
  datatype LookupError = IncorrectResultSize(found: nat)

  /** The `Optional` result of a single-result query over the rows it matched. */
  function SingleResult(matches: seq<Customer>): (r: Result<Option<Customer>, LookupError>)
    ensures r.Success? <==> |matches| <= 1
    ensures r == Success(None) <==> matches == []
    ensures r.Success? && r.value.Some? ==> r.value.value in matches
  {
    if |matches| == 0 then Success(None)
    else if |matches| == 1 then Success(Some(matches[0]))
    else Failure(IncorrectResultSize(|matches|))
  }

  /** A row with the given status whose name equals `name` ignoring case, other than row `excluded`. */
  predicate NamedLike(c: Customer, name: string, status: CustomerStatus, excluded: Option<Id>) {
    c.status == status && EqualsIgnoreCase(c.name, name) && excluded != Some(c.id)
  }

  function NamedPredicate(name: string, status: CustomerStatus, excluded: Option<Id>): Customer -> bool {
    c => NamedLike(c, name, status, excluded)
  }

  /** `findCustomerByNameIgnoringCaseAndStatus`. */
  function FindCustomerByNameIgnoringCaseAndStatus(rows: seq<Customer>, name: string, status: CustomerStatus)
    : (r: Result<Option<Customer>, LookupError>)
    ensures r != Success(None) <==> exists c :: c in rows && c.status == status && EqualsIgnoreCase(c.name, name)
    ensures r.Success? && r.value.Some? ==>
      var c := r.value.value; c in rows && c.status == status && EqualsIgnoreCase(c.name, name)
    ensures r.Success? <==> AtMostOne(rows, NamedPredicate(name, status, None))
  {
    SelectEmpty(rows, NamedPredicate(name, status, None));
    if AtMostOne(rows, NamedPredicate(name, status, None)) then
      SelectAtMostOne(rows, NamedPredicate(name, status, None));
      SingleResult(Select(rows, NamedPredicate(name, status, None)))
    else
      SelectSeveral(rows, NamedPredicate(name, status, None));
      SingleResult(Select(rows, NamedPredicate(name, status, None)))
  }

  /** `findCustomerByIdNotAndNameIgnoringCaseAndStatus`: as above, but never the row with id `id`. */
  function FindCustomerByIdNotAndNameIgnoringCaseAndStatus(rows: seq<Customer>, id: Id, name: string,
                                                           status: CustomerStatus)
    : (r: Result<Option<Customer>, LookupError>)
    ensures r != Success(None) <==>
      exists c :: c in rows && c.id != id && c.status == status && EqualsIgnoreCase(c.name, name)
    ensures r.Success? && r.value.Some? ==>
      var c := r.value.value; c in rows && c.id != id && c.status == status && EqualsIgnoreCase(c.name, name)
    ensures r.Success? <==> AtMostOne(rows, NamedPredicate(name, status, Some(id)))
  {
    SelectEmpty(rows, NamedPredicate(name, status, Some(id)));
    if AtMostOne(rows, NamedPredicate(name, status, Some(id))) then
      SelectAtMostOne(rows, NamedPredicate(name, status, Some(id)));
      SingleResult(Select(rows, NamedPredicate(name, status, Some(id))))
    else
      SelectSeveral(rows, NamedPredicate(name, status, Some(id)));
      SingleResult(Select(rows, NamedPredicate(name, status, Some(id))))
  }
}
