# Customer lifecycle of the payment-chain customer service

This project models, in Dafny, the customer service of the payment-chain
platform: the `Customer` entity and its DTO projection, the queries of
`CustomerRepository` (the filtered, paged listing with its count query and
the two single-result lookups by name and status), and the lifecycle rules
of `CustomerServiceImpl`.

- A customer is created ACTIVE with a creation time and no updated time.
- It may be renamed while ACTIVE.
- It is removed by switching its status to REMOVED. The row stays in the
  table, and the lookups by id no longer see it.
- Among ACTIVE customers, names are unique ignoring case.

Files:

- `wrappers.dfy`: `Option`, `Result` and `Outcome`, standing for Java's
  null, `Optional` and thrown exceptions.
- `text.dfy`: ASCII upper-casing (SQL `UPPER`, Spring Data's `IgnoringCase`)
  and substring containment (`LIKE CONCAT('%', x, '%')`).
- `customer_entity.dfy`: `Customer`, `CustomerDto`, `StatusName`, `ToDto`.
- `customer_repository.dfy`: the table as a map from id to row, read in
  ascending id order; the filter predicate; page slicing and totals; the
  two finders.
- `customer_service.dfy`: the class `CustomerServiceImpl`. It holds the
  table (`store`) and the id counter (`lastId`). Its invariant `Valid()`
  says that ids 1..lastId are all stored, each row sits under its own id,
  and ACTIVE names are unique ignoring case. Each service operation is a
  method returning a value or `NotFound`/`AlreadyExists`. Pure lemmas
  about the table back the methods.
- `customer_scenarios.dfy`: client code that replays the source's test
  scenarios using only the contracts.

The wall clock (`new Date()`) is a `now: Time` parameter of each mutating
method. Ids come from a counter starting at 1.

The query applies `UPPER` to the name only
(`CustomerRepository.java:18-19`), so the phone filter is case-sensitive
in the model (`PhoneFilterMatches`; `NameFilterExamples` and
`PhoneFilterExamples` show both filters).

## Model

| member | source | states |
|---|---|---|
| Text.UpperChar | business-domain/customer-service/src/main/java/com/paymentchain/customer/repository/CustomerRepository.java:18 | Upper-casing never yields an ASCII lower-case letter. It maps a lower-case letter to its capital and keeps every other character. |
| Text.UpperIdempotent | business-domain/customer-service/src/main/java/com/paymentchain/customer/repository/CustomerRepository.java:18 | Upper-casing an already upper-cased string changes nothing. |
| Text.ContainsIffOccurs | business-domain/customer-service/src/main/java/com/paymentchain/customer/repository/CustomerRepository.java:18-19 | The substring test used for `LIKE '%x%'` holds iff the needle occurs at some position of the haystack. |
| Text.EmptyIsContained | business-domain/customer-service/src/main/java/com/paymentchain/customer/repository/CustomerRepository.java:18-19 | An empty search string is contained in every value. |
| CustomerEntity.StatusNameInjective | business-domain/customer-service/src/main/java/com/paymentchain/customer/entity/Customer.java:51 | Two statuses have the same `name()` text iff they are the same status. |
| CustomerEntity.ToDto | business-domain/customer-service/src/main/java/com/paymentchain/customer/entity/Customer.java:45-55 | The DTO copies id, name and phone. Its status is the enum constant's name. Its created time is always present. Its updated time is absent iff the entity's is. |
| CustomerEntity.ToDtoInjective | business-domain/customer-service/src/main/java/com/paymentchain/customer/entity/Customer.java:45-55 | Model-only fact: different customers project to different DTOs. This holds for the model's DTO, whose times stay unformatted; the source's formatted date strings are not modelled. |
| CustomerRepository.RowsContents | business-domain/customer-service/src/main/java/com/paymentchain/customer/repository/CustomerRepository.java:17 | The table scan lists exactly the stored rows with ids up to the bound, each once, in ascending id order. |
| CustomerRepository.Select | business-domain/customer-service/src/main/java/com/paymentchain/customer/repository/CustomerRepository.java:17-19 | A query returns exactly the rows that satisfy its WHERE clause, never more rows than the table has. |
| CustomerRepository.SelectSorted | business-domain/customer-service/src/main/java/com/paymentchain/customer/repository/CustomerRepository.java:17-19 | Filtering keeps the rows in table order. |
| CustomerRepository.SelectEmpty | business-domain/customer-service/src/main/java/com/paymentchain/customer/repository/CustomerRepository.java:17-19 | A query returns nothing iff no row satisfies its WHERE clause. |
| CustomerRepository.CountIsSelectLength | business-domain/customer-service/src/main/java/com/paymentchain/customer/repository/CustomerRepository.java:20-24 | The count query, which has the same WHERE clause, counts exactly the rows the select query returns. |
| CustomerRepository.SelectAtMostOne | business-domain/customer-service/src/main/java/com/paymentchain/customer/repository/CustomerRepository.java:27-29 | If no two rows satisfy the predicate, a query returns at most one row. |
| CustomerRepository.SelectSeveral | business-domain/customer-service/src/main/java/com/paymentchain/customer/repository/CustomerRepository.java:27-29 | If two rows satisfy the predicate, a query returns at least two rows (through `SelectBothOf`, which proves it for two given positions). |
| CustomerRepository.FilterSemantics | business-domain/customer-service/src/main/java/com/paymentchain/customer/repository/CustomerRepository.java:17-19 | A row passes iff three conditions all hold. Its status equals the requested one. The name filter is null, or the upper-cased name contains the upper-cased filter. The phone filter is null, or the phone contains it case-sensitively. |
| CustomerRepository.TotalPages | business-domain/customer-service/src/main/java/com/paymentchain/customer/repository/CustomerRepository.java:24-25 | The page count is 0 iff there are no matches. Otherwise it is the least number of pages that holds them all. |
| CustomerRepository.PageContent | business-domain/customer-service/src/main/java/com/paymentchain/customer/repository/CustomerRepository.java:24-25 | A page holds at most the page size of rows. It holds exactly the full page, the remainder, or nothing past the end (`PageLength`). They are the matches from offset page×size on, in order. On the first page, when all matches fit, it holds them all. |
| CustomerRepository.FilterCustomers | business-domain/customer-service/src/main/java/com/paymentchain/customer/repository/CustomerRepository.java:17-25 | `totalElements` is the number of matching rows, whatever the page. `totalPages` is the ceiling of `totalElements` over the page size (`TotalPages`). With no matches both totals are 0 and the page is empty. Every row on the page is in the table and passes the filter. |
| CustomerRepository.SingleResult | business-domain/customer-service/src/main/java/com/paymentchain/customer/repository/CustomerRepository.java:27-29 | A single-result query gives empty for no match and the row for one match. It fails for several matches. |
| CustomerRepository.FindCustomerByNameIgnoringCaseAndStatus | business-domain/customer-service/src/main/java/com/paymentchain/customer/repository/CustomerRepository.java:27 | The result is present (or the query fails) iff some row has the status and the name ignoring case. A returned row has both. The query succeeds iff no two rows match: a single match is returned, and several give the incorrect-result-size failure. |
| CustomerRepository.FindCustomerByIdNotAndNameIgnoringCaseAndStatus | business-domain/customer-service/src/main/java/com/paymentchain/customer/repository/CustomerRepository.java:29 | As the previous finder, but only rows whose id differs from the given id count, and such a row is never returned. The query succeeds iff no two such rows match. |
| CustomerService.RemovedIsTerminal | business-domain/customer-service/src/main/java/com/paymentchain/customer/service/impl/CustomerServiceImpl.java:73-78 | Along any run of permitted table changes, a REMOVED customer stays in the table and stays REMOVED. |
| CustomerService.NamedLookupReflectsStore | business-domain/customer-service/src/main/java/com/paymentchain/customer/service/impl/CustomerServiceImpl.java:96-106 | Under the uniqueness invariant, no two rows pass the name lookups, so their `Optional` is well defined (the finders succeed). They match one iff another ACTIVE customer holds the name. |
| CustomerService.InsertKeepsNamesUnique | business-domain/customer-service/src/main/java/com/paymentchain/customer/service/impl/CustomerServiceImpl.java:28-35 | Inserting an ACTIVE customer whose name no ACTIVE customer holds keeps ACTIVE names unique. |
| CustomerService.RenameKeepsNamesUnique | business-domain/customer-service/src/main/java/com/paymentchain/customer/service/impl/CustomerServiceImpl.java:62-67 | Renaming to a name no other ACTIVE customer holds keeps ACTIVE names unique. |
| CustomerService.RemoveKeepsNamesUnique | business-domain/customer-service/src/main/java/com/paymentchain/customer/service/impl/CustomerServiceImpl.java:73-77 | Removing a customer keeps ACTIVE names unique. |
| CustomerService.OwnNameNeverCollides | business-domain/customer-service/src/main/java/com/paymentchain/customer/service/impl/CustomerServiceImpl.java:96-101 | A visible customer's own name, in any letter case, is held by no other ACTIVE customer. |
| CustomerService.RemovalFreesName | business-domain/customer-service/src/main/java/com/paymentchain/customer/service/impl/CustomerServiceImpl.java:73-78 | After a customer is removed, no ACTIVE customer holds its name, so a new customer may take it. |
| CustomerService.ListingRowsMatch | business-domain/customer-service/src/main/java/com/paymentchain/customer/service/impl/CustomerServiceImpl.java:41-50 | Every listed DTO is the projection of a stored row that passes the filter. |
| CustomerService.ListingInIdOrder | business-domain/customer-service/src/main/java/com/paymentchain/customer/service/impl/CustomerServiceImpl.java:41-50 | The listing keeps the order in which the model reads the table, ascending id. |
| CustomerService.ListingEmptyWithoutMatches | business-domain/customer-service/src/main/java/com/paymentchain/customer/service/impl/CustomerServiceImpl.java:45-47 | When no stored row passes the filter, the listing is the empty list, not an error. |
| CustomerService.FirstPageListsAllMatches | business-domain/customer-service/src/main/java/com/paymentchain/customer/service/impl/CustomerServiceImpl.java:41-50 | When every match fits on page 0, page 0 lists the DTO of every matching row. |
| CustomerService.CustomerServiceImpl.constructor | business-domain/customer-service/src/main/java/com/paymentchain/customer/service/impl/CustomerServiceImpl.java:22-23 | The service starts over an empty table with no id handed out, and the invariant holds. |
| CustomerService.CustomerServiceImpl.FindCustomerById | business-domain/customer-service/src/main/java/com/paymentchain/customer/service/impl/CustomerServiceImpl.java:80-90 | Fails with NotFound iff the id is absent or REMOVED. Otherwise returns the stored row. |
| CustomerService.CustomerServiceImpl.ValidateExistingCustomer | business-domain/customer-service/src/main/java/com/paymentchain/customer/service/impl/CustomerServiceImpl.java:96-107 | Fails with AlreadyExists iff an ACTIVE customer holds the name ignoring case. When an id is given, that customer is not counted. |
| CustomerService.CustomerServiceImpl.ValidateExistingName | business-domain/customer-service/src/main/java/com/paymentchain/customer/service/impl/CustomerServiceImpl.java:92-94 | Fails with AlreadyExists iff any ACTIVE customer holds the name ignoring case. |
| CustomerService.CustomerServiceImpl.CreateCustomer | business-domain/customer-service/src/main/java/com/paymentchain/customer/service/impl/CustomerServiceImpl.java:27-37 | Fails with AlreadyExists iff an ACTIVE customer holds the name ignoring case, and then nothing changes. Otherwise it adds exactly one row under the fresh id: given name and phone, ACTIVE, created now, no updated time. Other rows and the invariant are kept. |
| CustomerService.CustomerServiceImpl.GetAllCustomers | business-domain/customer-service/src/main/java/com/paymentchain/customer/service/impl/CustomerServiceImpl.java:41-50 | The status defaults to ACTIVE. Returns exactly the requested page of the matching rows: `PageLength` of them, the i-th being the projection of match page×size+i, in the order the model reads the table (ascending id). Each is a stored row with that status passing the name and phone filters. The list is empty when nothing matches. Page 0 lists every match when they fit. |
| CustomerService.CustomerServiceImpl.GetCustomer | business-domain/customer-service/src/main/java/com/paymentchain/customer/service/impl/CustomerServiceImpl.java:54-57 | Fails with NotFound iff the id is absent or REMOVED. Otherwise returns the row's DTO, whose status is "ACTIVE". |
| CustomerService.CustomerServiceImpl.UpdateCustomer | business-domain/customer-service/src/main/java/com/paymentchain/customer/service/impl/CustomerServiceImpl.java:61-69 | NotFound for an absent or REMOVED id takes precedence. Next, AlreadyExists iff another ACTIVE customer holds the name. On failure nothing changes. On success only that row's name, phone and updated time (now set) change. |
| CustomerService.CustomerServiceImpl.DeleteCustomer | business-domain/customer-service/src/main/java/com/paymentchain/customer/service/impl/CustomerServiceImpl.java:73-78 | Fails with NotFound iff the id is absent or already REMOVED, and then nothing changes. Otherwise the row stays, with status REMOVED and updated time now, and nothing else changes. |
| CustomerService.ListingIsPageOfMatches | business-domain/customer-service/src/main/java/com/paymentchain/customer/service/impl/CustomerServiceImpl.java:41-50 | The listing has `PageLength` entries, the i-th being the DTO of match page×size+i. |
| CustomerService.ListingSpec | business-domain/customer-service/src/main/java/com/paymentchain/customer/service/impl/CustomerServiceImpl.java:41-50 | Only gathers, for `GetAllCustomers`, what `ListingIsPageOfMatches` and `ListingRowsMatch` prove: the listing is the exact page slice of the matches; every entry is the DTO of a stored row that passes the filter and has the wanted status; it holds at most a page. |
| CustomerService.ListingShapeSpec | business-domain/customer-service/src/main/java/com/paymentchain/customer/service/impl/CustomerServiceImpl.java:41-50 | Only gathers, for `GetAllCustomers`, what `ListingEmptyWithoutMatches`, `ListingInIdOrder` and `FirstPageListsAllMatches` prove: with no match the listing is empty; it is in ascending id order; page 0 lists every match when they fit. |
| CustomerScenarios.DuplicateName | business-domain/customer-service/src/test/java/com/paymentchain/customer/service/CustomerServiceTest.java:38-48 | After "John" is created, creating "John" again is AlreadyExists. The model's own further step: "JOHN" is AlreadyExists too. |
| CustomerScenarios.DeleteThenRecreate | business-domain/customer-service/src/test/java/com/paymentchain/customer/service/CustomerServiceTest.java:246-260 | Creating "John" yields id 1; delete passes; get is then NotFound. The model's own further steps: "JOHN" is AlreadyExists before the delete, a second delete is NotFound, and "John" can be created again, with id 2. |
| CustomerScenarios.RenameScenarios | business-domain/customer-service/src/test/java/com/paymentchain/customer/service/CustomerServiceTest.java:182-226 | Renaming Mike to "John" is AlreadyExists; renaming John to "John" succeeds, stamps the update time and stays ACTIVE; an unknown id is NotFound. |
| CustomerScenarios.NameFilterExamples | business-domain/customer-service/src/test/java/com/paymentchain/customer/repository/CustomerRepositoryTest.java:85-126 | "joh" matches "John" and "bab" does not, because case is ignored. A null name filter matches every name. |
| CustomerScenarios.PhoneFilterExamples | business-domain/customer-service/src/test/java/com/paymentchain/customer/repository/CustomerRepositoryTest.java:128-169 | "123" matches phone "1234567890" and "555667" does not. A null phone filter matches every phone. |

## Left out

- Null request fields: request names and phones are non-null strings here. A null name passed to the lookups, and `findById(null)`, are not modelled.
- SQL `LIKE` wildcards (`%`, `_`) inside search strings are taken literally. Upper-casing is ASCII-only, not database or locale collation.
- Row order: the queries have no `ORDER BY`. The model reads the table in ascending id order, so the listing order is one the database may or may not use.
- Pagination is a plain slice of the match list plus the page totals. Sorting and other `Pageable` options are not modelled. A page size below 1 is excluded by a requires, because `PageRequest.of` rejects it.
- Dates: times are abstract `nat` values passed in by the caller. `DATE_TIME_FORMAT` formatting into DTO strings is not modelled, and the DTO keeps the abstract time.
- Ids come from a counter starting at 1 (`GenerationType.AUTO`). Ids are unbounded, so `Long` overflow is not modelled.
- Negative ids: `Id` is a `nat`, so the negative `Long` ids that `getCustomer`, `updateCustomer` and `deleteCustomer` accept cannot be passed; the source answers them with NotFound, as it does any absent id.
- In-place entity mutation: the setters on the fetched entity followed by `save` are modelled as replacing that row's value in the map. Aliasing of managed entities is not modelled.
- The multi-row failure of the single-result finders (Spring's incorrect-result-size exception) is modelled in `SingleResult`. The service methods prove it cannot happen under the invariant, so they have no error case for it.
- Concurrency and transactions: each operation is one sequential step. The check-then-insert race between concurrent creates is outside a sequential model.
- Spring wiring, the `CustomerService` interface (signatures only), exception message texts and DTO serialisation.
