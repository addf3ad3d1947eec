/** Contact search: `find_record` over the records in dictionary order and
    `find_records_by_name` over the (id, record) items. */
module Search {
  import opened Text
  import opened Lists
  import opened Contacts
  import opened Directory

  /** The lowercased term occurs in the lowercased name. */
  predicate NameMatches(c: Contact, term: string)
  {
    Contains(Lower(c.name), Lower(term))
  }

  /** The term occurs, case-sensitively, in some phone number. */
  predicate PhoneMatches(c: Contact, term: string)
  {
    exists p :: p in c.phoneNumbers && Contains(p.value, term)
  }

  /** The term occurs, case-sensitively, in some e-mail address. */
  predicate EmailMatches(c: Contact, term: string)
  {
    exists e :: e in c.emailAddresses && Contains(e.value, term)
  }

  /** How many times the loop body of `find_record` appends a record: once on a
      name match (then `continue`), otherwise once if a phone matches (then
      `break` out of the phone loop only) plus once if an e-mail matches. */
  function Listings(c: Contact, term: string): nat
  {
    if NameMatches(c, term) then 1
    else (if PhoneMatches(c, term) then 1 else 0) + (if EmailMatches(c, term) then 1 else 0)
  }

  /** `find_record(term)` on `data.values()`. */
  function FindRecord(values: seq<Contact>, term: string): seq<Contact>
  {
    if values == [] then [] else Repeat(values[0], Listings(values[0], term)) + FindRecord(values[1..], term)
  }

  /** A record is listed at most twice; a name match lists it exactly once;
      otherwise once per matching category; not at all if nothing matches. */
  lemma ListingsCases(c: Contact, term: string)
    ensures Listings(c, term) <= 2
    ensures NameMatches(c, term) ==> Listings(c, term) == 1
    ensures Listings(c, term) == 2 <==> !NameMatches(c, term) && PhoneMatches(c, term) && EmailMatches(c, term)
    ensures Listings(c, term) == 0 <==> !NameMatches(c, term) && !PhoneMatches(c, term) && !EmailMatches(c, term)
  {
  }

  /** Results follow dictionary order: the search of a concatenation is the
      concatenation of the searches. */
  lemma {:induction false} FindRecordConcat(a: seq<Contact>, b: seq<Contact>, term: string)
    ensures FindRecord(a + b, term) == FindRecord(a, term) + FindRecord(b, term)
    decreases |a|
  {
    if a == [] {
      assert a + b == b;
    } else {
      assert (a + b)[0] == a[0] && (a + b)[1..] == a[1..] + b;
      FindRecordConcat(a[1..], b, term);
      var head := Repeat(a[0], Listings(a[0], term));
      calc {
        FindRecord(a + b, term);
        head + FindRecord(a[1..] + b, term);
        head + (FindRecord(a[1..], term) + FindRecord(b, term));
        (head + FindRecord(a[1..], term)) + FindRecord(b, term);
      }
    }
  }

  /** Each occurrence of a record among the values is listed Listings times
      (n copies of m occurrences, written out for n <= 2). */
  lemma {:induction false} FindRecordMultiplicity(values: seq<Contact>, term: string, c: Contact)
    ensures var m, n := multiset(values)[c], Listings(c, term);
      multiset(FindRecord(values, term))[c] == if n == 0 then 0 else if n == 1 then m else m + m
    decreases |values|
  {
    if values != [] {
      var x, tail := values[0], values[1..];
      var head := Repeat(x, Listings(x, term));
      FindRecordMultiplicity(tail, term, c);
      RepeatMultiplicity(x, Listings(x, term), c);
      assert values == [x] + tail;
      assert multiset(values)[c] == multiset([x])[c] + multiset(tail)[c];
      assert FindRecord(values, term) == head + FindRecord(tail, term);
      assert multiset(FindRecord(values, term))[c] == multiset(head)[c] + multiset(FindRecord(tail, term))[c];
      if x == c {
        assert multiset([x])[c] == 1;
      } else {
        assert multiset([x])[c] == 0;
      }
    }
  }

  lemma {:induction false} RepeatMultiplicity<T>(x: T, n: nat, c: T)
    ensures multiset(Repeat(x, n))[c] == if x == c then n else 0
  {
    if n > 0 {
      RepeatMultiplicity(x, n - 1, c);
    }
  }

  /** The empty term matches every name, so every record comes back exactly once, in order. */
  lemma {:induction false} FindRecordEmptyTerm(values: seq<Contact>)
    ensures FindRecord(values, "") == values
  {
    if values != [] {
      ContainsEmpty(Lower(values[0].name));
      FindRecordEmptyTerm(values[1..]);
    }
  }

  /** A record whose phone number and e-mail address both contain the term but
      whose name does not comes back twice. */
  lemma FindRecordListsTwice(c: Contact, term: string)
    requires !NameMatches(c, term) && PhoneMatches(c, term) && EmailMatches(c, term)
    ensures FindRecord([c], term) == [c, c]
  {
    assert [c][1..] == [];
    assert Repeat(c, 2) == [c, c];
  }

  /** Such records exist: "Jan", 500600700, jan500@poczta.pl, searched for "500". */
  lemma ListedTwiceExample(c: Contact, phone: string, email: string)
    requires phone == "500600700" && email == "jan500@poczta.pl"
    requires c.name == "Jan"
    requires c.phoneNumbers == [PhoneNumber(phone)]
    requires c.emailAddresses == [EmailAddress(email)]
    ensures !NameMatches(c, "500") && PhoneMatches(c, "500") && EmailMatches(c, "500")
  {
    NameDoesNotMatch();
    assert "500" <= phone;
    assert c.phoneNumbers[0].value == phone;
    EmailContainsTerm(email);
    assert c.emailAddresses[0].value == email;
  }

  lemma NameDoesNotMatch()
    ensures !Contains(Lower("Jan"), Lower("500"))
  {
    assert Lower("500") == "500";
    assert Lower("Jan") == "jan";
    ContainsIffOccurs("jan", "500");
  }

  lemma EmailContainsTerm(email: string)
    requires email == "jan500@poczta.pl"
    ensures Contains(email, "500")
  {
    assert OccursAt(email, "500", 3);
    ContainsIffOccurs(email, "500");
  }

  /** Some field of the record matches the term. */
  predicate RecordMatches(c: Contact, term: string)
  {
    NameMatches(c, term) || PhoneMatches(c, term) || EmailMatches(c, term)
  }

  /** The search as its comments describe it: each record whose name, a phone
      number or an e-mail address matches, once, in dictionary order. */
  function FindRecordOnce(values: seq<Contact>, term: string): (r: seq<Contact>)
    ensures forall c :: c in r <==> c in values && RecordMatches(c, term)
  {
    if values == [] then []
    else (if RecordMatches(values[0], term) then [values[0]] else []) + FindRecordOnce(values[1..], term)
  }

  /** In the corrected search a record occurs as often as it occurs among the
      values if it matches, and not at all otherwise. */
  lemma {:induction false} FindRecordOnceMultiplicity(values: seq<Contact>, term: string, c: Contact)
    ensures multiset(FindRecordOnce(values, term))[c] == if RecordMatches(c, term) then multiset(values)[c] else 0
    decreases |values|
  {
    if values != [] {
      FindRecordOnceMultiplicity(values[1..], term, c);
      assert values == [values[0]] + values[1..];
    }
  }

  /** The two searches list the same records; they differ only in how often. */
  lemma FindRecordOnceSameRecords(values: seq<Contact>, term: string, c: Contact)
    ensures c in FindRecord(values, term) <==> c in FindRecordOnce(values, term)
  {
    FindRecordMultiplicity(values, term, c);
    FindRecordOnceMultiplicity(values, term, c);
  }

  /** `find_records_by_name(name)`: the (id, record) items whose name contains
      the given one, ignoring case, in dictionary order. */
  function FindRecordsByName(entries: seq<Entry>, name: string): (r: seq<Entry>)
    ensures forall e :: e in r <==> e in entries && NameMatches(e.1, name)
    ensures |r| <= |entries|
  {
    if entries == [] then []
    else (if NameMatches(entries[0].1, name) then [entries[0]] else []) + FindRecordsByName(entries[1..], name)
  }

  lemma {:induction false} FindRecordsByNameConcat(a: seq<Entry>, b: seq<Entry>, name: string)
    ensures FindRecordsByName(a + b, name) == FindRecordsByName(a, name) + FindRecordsByName(b, name)
    decreases |a|
  {
    if a == [] {
      assert a + b == b;
    } else {
      assert (a + b)[0] == a[0] && (a + b)[1..] == a[1..] + b;
      FindRecordsByNameConcat(a[1..], b, name);
      var head := if NameMatches(a[0].1, name) then [a[0]] else [];
      calc {
        FindRecordsByName(a + b, name);
        head + FindRecordsByName(a[1..] + b, name);
        head + (FindRecordsByName(a[1..], name) + FindRecordsByName(b, name));
        (head + FindRecordsByName(a[1..], name)) + FindRecordsByName(b, name);
      }
    }
  }

  /** Right after a record is added under a fresh id, looking up its own name
      returns the earlier matches followed by the new item, and no earlier
      match carries the new id. */
  lemma FindAfterAdd(entries: seq<Entry>, id: int, c: Contact)
    requires id !in Keys(entries)
    ensures FindRecordsByName(entries + [(id, c)], c.name) == FindRecordsByName(entries, c.name) + [(id, c)]
    ensures forall e :: e in FindRecordsByName(entries, c.name) ==> e.0 != id
  {
    FindRecordsByNameConcat(entries, [(id, c)], c.name);
    assert Contains(Lower(c.name), Lower(c.name));
    assert FindRecordsByName([(id, c)], c.name) == [(id, c)];
  }
}
