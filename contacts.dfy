/** The fields of a contact and the contact record with its list operations. */
module Contacts {
  import opened Wrappers
  import opened Validators
  import opened Calendar
  import opened Lists

  /** The ValueError each field constructor raises on malformed input. */
  datatype ValidationError = InvalidPhone | InvalidEmail | InvalidBirthdate

  datatype PhoneNumber = PhoneNumber(value: string)

  datatype EmailAddress = EmailAddress(value: string)

  /** A phone number as `PhoneNumber.__init__` lets it exist: one that passed validate_phone. */
  type ValidPhoneNumber = p: PhoneNumber | ValidatePhone(p.value) witness PhoneNumber("000000000")

  /** An e-mail address as `EmailAddress.__init__` lets it exist: one that passed validate_email. */
  type ValidEmailAddress = e: EmailAddress | ValidateEmail(e.value) witness (ValidateEmailSample(); EmailAddress("a@b.c"))

  /** Street, city, postal code and country; the joined display value is
      formatting and is not modelled. */
  datatype Address = Address(street: string, city: string, postalCode: string, country: string)

  /** `PhoneNumber(value)`: the value is kept only if it passes validate_phone. */
  function NewPhoneNumber(value: string): (r: Result<ValidPhoneNumber, ValidationError>)
    ensures r.Success? <==> ValidatePhone(value)
    ensures r.Success? ==> r.value.value == value
    ensures r.Failure? ==> r.error == InvalidPhone
  {
    if ValidatePhone(value) then Success(PhoneNumber(value)) else Failure(InvalidPhone)
  }

  /** `EmailAddress(value)`: the value is kept only if it passes validate_email. */
  function NewEmailAddress(value: string): (r: Result<ValidEmailAddress, ValidationError>)
    ensures r.Success? <==> EmailPattern(value)
    ensures r.Success? ==> r.value.value == value
    ensures r.Failure? ==> r.error == InvalidEmail
  {
    ValidateEmailMatchesPattern(value);
    if ValidateEmail(value) then Success(EmailAddress(value)) else Failure(InvalidEmail)
  }

  /** `BirthDate(value)` on the parsed (year, month, day): only calendar dates are kept. */
  function NewBirthDate(year: int, month: int, day: int): (r: Result<CalendarDate, ValidationError>)
    ensures r.Success? <==> ValidDate(Date(year, month, day))
    ensures r.Success? ==> r.value == Date(year, month, day)
    ensures r.Failure? ==> r.error == InvalidBirthdate
  {
    if ValidDate(Date(year, month, day)) then Success(Date(year, month, day)) else Failure(InvalidBirthdate)
  }

  /** The value of a record: everything a Record holds except its id. */
  datatype Contact = Contact(
    name: string,
    phoneNumbers: seq<ValidPhoneNumber>,
    emailAddresses: seq<ValidEmailAddress>,
    birthdate: Option<CalendarDate>,
    address: Option<Address>)

  /** One item of the address book's dictionary: (id, record). */
  type Entry = (int, Contact)

  /** A contact record. Its lists change in place and hold only validated
      values; removing an absent value (a ValueError in Python) is reported as
      `false` and changes nothing. */
  class Record {
    var id: Option<int>
    var name: string
    var phoneNumbers: seq<ValidPhoneNumber>
    var emailAddresses: seq<ValidEmailAddress>
    var birthdate: Option<CalendarDate>
    var address: Option<Address>

    constructor (name: string, birthdate: Option<CalendarDate>)
      ensures this.name == name && this.birthdate == birthdate
      ensures id == None && phoneNumbers == [] && emailAddresses == [] && address == None
    {
      this.id := None;
      this.name := name;
      this.phoneNumbers := [];
      this.emailAddresses := [];
      this.birthdate := birthdate;
      this.address := None;
    }

    function Value(): Contact
      reads this
    {
      Contact(name, phoneNumbers, emailAddresses, birthdate, address)
    }

    method AddAddress(address: Address)
      modifies this`address
      ensures this.address == Some(address)
    {
      this.address := Some(address);
    }

    method AddPhoneNumber(phoneNumber: ValidPhoneNumber)
      modifies this`phoneNumbers
      ensures phoneNumbers == old(phoneNumbers) + [phoneNumber]
    {
      phoneNumbers := phoneNumbers + [phoneNumber];
    }

    method RemovePhoneNumber(phoneNumber: ValidPhoneNumber) returns (removed: bool)
      modifies this`phoneNumbers
      ensures removed <==> phoneNumber in old(phoneNumbers)
      ensures phoneNumbers == RemoveFirst(old(phoneNumbers), phoneNumber)
    {
      removed := phoneNumber in phoneNumbers;
      phoneNumbers := RemoveFirst(phoneNumbers, phoneNumber);
    }

    /** Remove, then append: the new number goes to the end; if the old one is
        absent the removal raises before anything is appended. */
    method EditPhoneNumber(oldNumber: ValidPhoneNumber, newNumber: ValidPhoneNumber) returns (edited: bool)
      modifies this`phoneNumbers
      ensures edited <==> oldNumber in old(phoneNumbers)
      ensures edited ==> phoneNumbers == RemoveFirst(old(phoneNumbers), oldNumber) + [newNumber]
      ensures !edited ==> phoneNumbers == old(phoneNumbers)
    {
      edited := RemovePhoneNumber(oldNumber);
      if edited {
        AddPhoneNumber(newNumber);
      }
    }

    method AddEmailAddress(emailAddress: ValidEmailAddress)
      modifies this`emailAddresses
      ensures emailAddresses == old(emailAddresses) + [emailAddress]
    {
      emailAddresses := emailAddresses + [emailAddress];
    }

    method RemoveEmailAddress(emailAddress: ValidEmailAddress) returns (removed: bool)
      modifies this`emailAddresses
      ensures removed <==> emailAddress in old(emailAddresses)
      ensures emailAddresses == RemoveFirst(old(emailAddresses), emailAddress)
    {
      removed := emailAddress in emailAddresses;
      emailAddresses := RemoveFirst(emailAddresses, emailAddress);
    }

    method EditEmailAddress(oldAddress: ValidEmailAddress, newAddress: ValidEmailAddress) returns (edited: bool)
      modifies this`emailAddresses
      ensures edited <==> oldAddress in old(emailAddresses)
      ensures edited ==> emailAddresses == RemoveFirst(old(emailAddresses), oldAddress) + [newAddress]
      ensures !edited ==> emailAddresses == old(emailAddresses)
    {
      edited := RemoveEmailAddress(oldAddress);
      if edited {
        AddEmailAddress(newAddress);
      }
    }

    method EditName(newName: string)
      modifies this`name
      ensures name == newName
    {
      name := newName;
    }
  }

  /** A successful edit keeps the number of entries and swaps one copy of the
      old value for one of the new. */
  lemma EditKeepsCount<T>(s: seq<T>, oldValue: T, newValue: T)
    requires oldValue in s
    ensures |RemoveFirst(s, oldValue) + [newValue]| == |s|
    ensures multiset(RemoveFirst(s, oldValue) + [newValue]) == multiset(s) - multiset{oldValue} + multiset{newValue}
  {
    RemoveFirstMultiset(s, oldValue);
  }
}
