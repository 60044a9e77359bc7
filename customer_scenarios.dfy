/**
 * Client code replaying the service and repository test scenarios against the
 * contracts alone: every assertion here follows from the specifications of
 * the service methods and the repository predicates.
 */
module CustomerScenarios {
  import opened Wrappers
  import opened Text
  import opened CustomerEntity
  import opened CustomerRepository
  import opened CustomerService

  /** The name filter ignores case; a null filter matches every name. */
  lemma NameFilterExamples()
    ensures NameFilterMatches(Some("joh"), "John")
    ensures !NameFilterMatches(Some("bab"), "John")
    ensures NameFilterMatches(None, "John")
  {
    assert Upper("joh") == "JOH";
    assert Upper("John") == "JOHN";
    assert Upper("bab") == "BAB";
    // the needle's first two characters never appear side by side
    NoAdjacentPair("JOHN", "BAB");
  }

  /** The phone filter is a plain substring test; a null filter matches every phone. */
  lemma PhoneFilterExamples()
    ensures PhoneFilterMatches(Some("123"), "1234567890")
    ensures !PhoneFilterMatches(Some("555667"), "1234567890")
    ensures PhoneFilterMatches(None, "1234567890")
  {
    NoAdjacentPair("1234567890", "555667");
  }

  /** A haystack in which the needle's first two characters never appear side by side does not contain it. */
  lemma NoAdjacentPair(hay: string, needle: string)
    requires 2 <= |needle|
    requires forall i :: 0 <= i < |hay| - 1 ==> hay[i] != needle[0] || hay[i + 1] != needle[1]
    ensures !Contains(hay, needle)
  {
    ContainsIffOccurs(hay, needle);
    forall i: nat | i + |needle| <= |hay|
      ensures !OccursAt(hay, needle, i)
    {
      assert hay[i..i + |needle|][0] == hay[i] && hay[i..i + |needle|][1] == hay[i + 1];
    }
  }

  /** Creating a customer whose name an ACTIVE customer already holds fails, in any letter case. */
  method DuplicateName()
    returns (first: Result<CustomerDto, Error>, again: Result<CustomerDto, Error>, shouted: Result<CustomerDto, Error>)
    ensures first.Success? && first.value.id == 1 && first.value.name == "John"
    ensures again == Failure(AlreadyExists)
    ensures shouted == Failure(AlreadyExists)
  {
    var service := new CustomerServiceImpl();
    first := service.CreateCustomer("John", "1234567890", 1);
    again := service.CreateCustomer("John", "5566778899", 2);
    assert Upper("John") == Upper("JOHN");
    shouted := service.CreateCustomer("JOHN", "5566778899", 3);
  }

  /** Create, reject a duplicate in another letter case, remove, and create the same name again. */
  method DeleteThenRecreate()
    returns (created: Result<CustomerDto, Error>, duplicate: Result<CustomerDto, Error>, deleted: Outcome<Error>,
             lookup: Result<CustomerDto, Error>, deletedAgain: Outcome<Error>, recreated: Result<CustomerDto, Error>)
    ensures created == Success(CustomerDto(1, "John", "1234567890", "ACTIVE", 10, None))
    ensures duplicate == Failure(AlreadyExists)
    ensures deleted == Pass
    ensures lookup == Failure(NotFound)
    ensures deletedAgain == Fail(NotFound)
    ensures recreated.Success? && recreated.value.id == 2 && recreated.value.name == "John"
  {
    var service := new CustomerServiceImpl();
    created := service.CreateCustomer("John", "1234567890", 10);
    assert created == Success(CustomerDto(1, "John", "1234567890", "ACTIVE", 10, None));

    assert Upper("John") == Upper("JOHN");
    duplicate := service.CreateCustomer("JOHN", "5566778899", 11);
    assert duplicate == Failure(AlreadyExists);

    deleted := service.DeleteCustomer(1, 12);
    assert deleted == Pass;
    lookup := service.GetCustomer(1);
    assert lookup == Failure(NotFound);
    deletedAgain := service.DeleteCustomer(1, 13);
    assert deletedAgain == Fail(NotFound);

    recreated := service.CreateCustomer("John", "555", 14);
    assert recreated.Success? && recreated.value.id == 2;
  }

  /** Renaming to one's own name succeeds; renaming to another ACTIVE customer's name fails. */
  method RenameScenarios()
    returns (clash: Result<CustomerDto, Error>, same: Result<CustomerDto, Error>, missing: Result<CustomerDto, Error>)
    ensures clash == Failure(AlreadyExists)
    ensures same.Success? && same.value.id == 1 && same.value.name == "John"
    ensures same.value.updatedTime == Some(4) && same.value.status == "ACTIVE"
    ensures missing == Failure(NotFound)
  {
    var service := new CustomerServiceImpl();
    var john := service.CreateCustomer("John", "1234567890", 1);
    assert Upper("John") != Upper("Mike") by {
      assert Upper("John")[0] == 'J' && Upper("Mike")[0] == 'M';
    }
    var mike := service.CreateCustomer("Mike", "9876543210", 2);
    assert mike.Success? && mike.value.id == 2;

    clash := service.UpdateCustomer(2, "John", "9876543210", 3);
    assert clash == Failure(AlreadyExists);

    OwnNameNeverCollides(service.store, 1, "John");
    same := service.UpdateCustomer(1, "John", "1234567890", 4);
    assert same.Success?;
    assert service.store[1].updatedTime == Some(4);
    assert same.Success? && same.value.updatedTime.Some? && same.value.status == "ACTIVE";

    missing := service.UpdateCustomer(7, "Mike", "1234567890", 5);
    assert missing == Failure(NotFound);
  }
}
