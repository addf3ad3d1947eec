# Personal assistant: address book and notes, modelled in Dafny

This project models the core of a console "personal assistant" written in
Python (`zad_z_mod1.py`). The assistant keeps an address book of contact
records and a notebook of tagged notes.

- **Contact fields.** A phone number is exactly nine digits. An e-mail address
  follows a fixed character-class pattern. A birthdate is a real calendar date.
  `Contacts.New*` turn the `ValueError` the constructors raise into a `Failure`.
  Their results have the types `Contacts.ValidPhoneNumber` and
  `Contacts.ValidEmailAddress`, which hold only values that passed validation.
  Contact snapshots and `Record` fields and parameters use these types, so no
  record holds a number or address its constructor would have refused.
- **Records** (`Contacts.Record`) are objects whose phone and e-mail lists change
  in place. `remove` drops the first equal element. A failing `remove` (Python's
  `ValueError`) is reported as `false` and changes nothing.
- **The address book** (`Directory.AddressBook`) is an insertion-ordered
  dictionary from integer ids to records, plus `next_id` and a pool of free ids.
  - The id-allocation rule of `add_record` is specified by the function
    `Ids.Allocate`. The method with its `while` loop is proved to agree with it.
  - The invariant "free ids and live keys are disjoint" is preserved by adding
    and by deleting.
  - `__iter__`/`__next__` hand out the values in pages of five.
  - `load_address_book` is modelled by the state it leaves behind.
- **Searches** (`Search`) follow the code as written, including the double
  listing described under Findings.
- **Birthdays** (`Birthdays`) model `upcoming_birthdays` on dates. They use a
  proleptic Gregorian day count (`Calendar.Ordinal`) that matches Python's
  `date.toordinal()`. `replace(year=...)` is modelled with both of its error
  cases: a year outside 1..9999, and 29 February in a common year.
  `Record.days_to_birthdate` is modelled with an explicit time-of-day parameter.
- **Notes** (`Notes`) are objects with a mutable tag list, held by a `Notebook`
  and tagged through a `Tag` manager. `search_tag` and `sort_tags` are
  functions over the notebook's note list.

The current date and time of day are parameters. All console I/O and printing
are outside the model.

Modules, in dependency order:
- `Wrappers`: Option and Result.
- `Text`: ASCII character classes, lower-casing, substring test, string order.
- `Calendar`: proleptic Gregorian dates, `date.toordinal()` (`Ordinal`) and `date.replace(year=...)` (`Replace`).
- `Validators`: `validate_phone` (`ValidatePhone`) and the e-mail pattern of `validate_email` (`ValidateEmail`) as predicates.
- `Lists`: `list.index` and `list.remove`.
- `Contacts`: the field types, their validating constructors, the `Record` class and its value snapshot `Contact`.
- `Ids`: the id-allocation rule of `add_record` (`Allocate`).
- `Directory`: the `AddressBook` class, deletion from the ordered dictionary (`RemoveId`) and the five-per-page iteration (`Pages`).
- `Search`: `find_record` as written (`FindRecord`) and as intended (`FindRecordOnce`), and `find_records_by_name`.
- `Birthdays`: the next occurrence of a birthday (`NextBirthday`), `upcoming_birthdays` (`UpcomingBirthdays`) and `Record.days_to_birthdate` (`DaysToBirthdate`).
- `Notes`: the `Note`, `Notebook` and `Tag` classes, tag search and tag sorting.

## Model

| member | source | states |
|---|---|---|
| Text.Lower | zad_z_mod1.py:220 | `str.lower()` keeps the length and lower-cases each ASCII letter position by position |
| Text.ContainsIffOccurs | zad_z_mod1.py:220 | the `in` substring test holds exactly when the term occurs at some position of the text |
| Text.LexTransitive | zad_z_mod1.py:571 | Python's string order used by `sorted` is transitive |
| Text.LexTotal | zad_z_mod1.py:571 | any two different strings are ordered one way or the other |
| Text.LexAsymmetric | zad_z_mod1.py:571 | the string order is strict: never both a < b and b < a |
| Calendar.DaysInMonth | zad_z_mod1.py:87-92 | every month `strptime` accepts has 28 to 31 days |
| Calendar.LeapDayValid | zad_z_mod1.py:87-92 | 29 February is a valid date exactly in leap years |
| Calendar.Replace | zad_z_mod1.py:157 | a successful `replace(year=y)` keeps the month and day and sets the year to y |
| Calendar.ReplaceFails | zad_z_mod1.py:157-159 | `replace(year=y)` raises exactly when y is outside 1..9999, or the date is 29 February and y is a common year |
| Calendar.DaysBeforeNextYear | zad_z_mod1.py:160 | consecutive years' day counts differ by the length of the year (365 or 366) |
| Calendar.OrdinalInYear | zad_z_mod1.py:160 | a date's day number lies strictly inside its own year's block of days |
| Calendar.OrdinalInjectiveInYear | zad_z_mod1.py:252 | two dates of one year with the same day number are the same date, so `today > next_birthday` compares calendar positions |
| Calendar.OrdinalNextYear | zad_z_mod1.py:252-255 | the same month and day one year later is 365 or 366 days further on: the current year's length up to February, the next year's from March |
| Validators.ValidatePhoneExamples | zad_z_mod1.py:63-65 | nine digits pass; eight digits, ten digits, or a letter among nine characters fail |
| Validators.ValidateEmailMatchesPattern | zad_z_mod1.py:75-77 | the left-to-right scan accepts exactly the strings with a local part, one `@`, a dot-free label, a `.` and a tail, each non-empty and over its character class |
| Validators.ValidateEmailSample | zad_z_mod1.py:75-77 | `a@b.c`, a shortest address, fits the pattern |
| Validators.ValidateEmailDotExamples | zad_z_mod1.py:75-77 | `a@b..` is accepted and `a@b.` is rejected |
| Validators.ValidateEmailAtExamples | zad_z_mod1.py:75-77 | a second `@` or an empty local part is rejected |
| Lists.FirstIndex | zad_z_mod1.py:123 | the index `remove` acts on holds the value and no earlier position does |
| Lists.RemoveFirst | zad_z_mod1.py:123 | `remove(x)` deletes the first x and keeps the rest in order; an absent x leaves the list as it is |
| Lists.RemoveFirstMultiset | zad_z_mod1.py:123 | removing a present value shortens the list by one and takes exactly one copy of it out of the multiset |
| Contacts.NewPhoneNumber | zad_z_mod1.py:57-60 | a `PhoneNumber` is built exactly when `validate_phone` accepts, keeping the value, and its type records that it passed; otherwise the constructor raises |
| Contacts.NewEmailAddress | zad_z_mod1.py:69-72 | an `EmailAddress` is built exactly when the value fits the e-mail pattern, and its type records that it passed; otherwise the constructor raises |
| Contacts.NewBirthDate | zad_z_mod1.py:81-92 | a birthdate is kept exactly when (year, month, day) is a calendar date in years 1..9999 |
| Contacts.Record.constructor | zad_z_mod1.py:105-111 | a new record has the given name and birthdate, no id, no numbers, no e-mails and no address |
| Contacts.Record.AddAddress | zad_z_mod1.py:113-115 | the address is set |
| Contacts.Record.AddPhoneNumber | zad_z_mod1.py:117-119 | the number is appended and the rest of the list stays |
| Contacts.Record.RemovePhoneNumber | zad_z_mod1.py:121-123 | the first equal number is removed; the result says whether there was one |
| Contacts.Record.EditPhoneNumber | zad_z_mod1.py:125-130 | a present old number is removed and the new one appended at the end; an absent one raises before anything changes |
| Contacts.Record.AddEmailAddress | zad_z_mod1.py:132-134 | the address is appended and the rest of the list stays |
| Contacts.Record.RemoveEmailAddress | zad_z_mod1.py:136-138 | the first equal address is removed; the result says whether there was one |
| Contacts.Record.EditEmailAddress | zad_z_mod1.py:140-145 | a present old address is removed and the new one appended; an absent one changes nothing |
| Contacts.Record.EditName | zad_z_mod1.py:147-149 | the name is replaced |
| Contacts.EditKeepsCount | zad_z_mod1.py:125-130 | a successful edit keeps the list length and swaps one copy of the old value for one of the new |
| Ids.Advance | zad_z_mod1.py:189-190 | the loop stops at the first integer at or above `next_id` that is neither a key nor free |
| Ids.AdvanceUnique | zad_z_mod1.py:189-190 | any such stopping point is that first integer, so the loop has exactly one outcome |
| Ids.MinOf | zad_z_mod1.py:192 | `min(free_ids)` is a free id no larger than any other |
| Ids.AllocateChoice | zad_z_mod1.py:189-196 | with free ids, the id is the least free one, it leaves the pool, and `next_id` stays at the advanced candidate; without free ids, the id is the first non-key at or above `next_id` and `next_id` moves one past it |
| Ids.AllocateMonotone | zad_z_mod1.py:189-196 | `next_id` never decreases; when a free id is reused, `next_id` rests on an id that is neither a key nor free |
| Ids.AllocateFresh | zad_z_mod1.py:189-197 | if keys and free ids are disjoint, the new id is not a key, and disjointness holds again after it becomes one |
| Ids.AllocateAfterLoad | zad_z_mod1.py:397-399 | after loading (next_id 1, no free ids) the new id is the least positive integer that is not a loaded key |
| Ids.AllocateReusesFreedId | zad_z_mod1.py:189-196 | add, add, delete the first, add: the freed id 1 is handed out again |
| Directory.KeysAppend | zad_z_mod1.py:197 | storing under a new id adds exactly that id to the keys |
| Directory.DistinctTail | zad_z_mod1.py:197 | dictionary keys are unique: the tail of the items has distinct ids, none equal to the head's |
| Directory.RemoveIdKeys | zad_z_mod1.py:208 | `del data[id]` removes exactly that key |
| Directory.RemoveIdMembers | zad_z_mod1.py:208 | `del data[id]` keeps exactly the items with another id |
| Directory.RemoveIdDistinct | zad_z_mod1.py:208 | deleting keeps the ids distinct |
| Directory.RemoveIdAbsent | zad_z_mod1.py:207-212 | deleting an absent id changes nothing, order included |
| Directory.PagesFlatten | zad_z_mod1.py:302-308 | concatenating the pages gives back `data.values()` in order |
| Directory.PagesShape | zad_z_mod1.py:302-308 | there are ⌈n/5⌉ pages; each holds five values except the last, which holds one to five |
| Directory.PageAt | zad_z_mod1.py:304 | page k is the slice `[5k : 5k+5]` of the values |
| Directory.AddressBook.constructor | zad_z_mod1.py:182-185 | a new book is empty with `next_id` 1 and no free ids, and satisfies the invariant |
| Directory.AddressBook.Load | zad_z_mod1.py:393-405 | loading leaves the loaded dictionary with next_id 1 and no free ids; a missing file or any other error gives an empty book |
| Directory.AddressBook.AddRecord | zad_z_mod1.py:187-197 | the loop and the branch give exactly `Ids.Allocate`'s new id, next_id and free ids; the id is fresh; the record is appended under it, the others unchanged; the record's id is set; the invariant is kept |
| Directory.AddressBook.DeleteById | zad_z_mod1.py:207-209 | a present id (also at lines 278-282) leaves the dictionary and joins the free ids; an absent id changes nothing; the invariant is kept |
| Directory.AddressBook.Iter | zad_z_mod1.py:297-300 | the cursor restarts at 0 |
| Directory.AddressBook.Next | zad_z_mod1.py:302-308 | below the end it returns the next slice of at most five values and moves the cursor by five; at or past the end it signals StopIteration and leaves the cursor |
| Search.ListingsCases | zad_z_mod1.py:219-230 | a record is appended at most twice: once on a name match, otherwise once per matching category (phone, e-mail), never if nothing matches |
| Search.FindRecordConcat | zad_z_mod1.py:219-231 | results follow dictionary order: searching a concatenation concatenates the results |
| Search.FindRecordMultiplicity | zad_z_mod1.py:219-231 | each contact occurs in the result as often as it occurs among the values, times its number of listings |
| Search.FindRecordEmptyTerm | zad_z_mod1.py:220-222 | the empty term returns every record exactly once, in order |
| Search.FindRecordListsTwice | zad_z_mod1.py:223-230 | a record whose name misses but whose phone and e-mail both contain the term is returned twice |
| Search.ListedTwiceExample | zad_z_mod1.py:223-230 | such records exist: name "Jan", a phone and an e-mail both containing "500" |
| Search.FindRecordOnce | zad_z_mod1.py:216-217 | the corrected search returns exactly the records with a matching name, phone or e-mail |
| Search.FindRecordOnceMultiplicity | zad_z_mod1.py:216-217 | in the corrected search a matching contact occurs as often as among the values, a non-matching one not at all |
| Search.FindRecordOnceSameRecords | zad_z_mod1.py:216-231 | the search as written and the corrected one list the same records |
| Search.FindRecordsByName | zad_z_mod1.py:233-239 | exactly the (id, record) items whose name contains the given one, ignoring case |
| Search.FindRecordsByNameConcat | zad_z_mod1.py:236-238 | results follow dictionary order |
| Search.FindAfterAdd | zad_z_mod1.py:233-239 | after adding under a fresh id, searching for the new name gives the earlier matches followed by the new item |
| Birthdays.NextBirthdayWithinYear | zad_z_mod1.py:251-253 | the next occurrence is today or later and at most 365 days ahead |
| Birthdays.DaysUntilBirthday | zad_z_mod1.py:251-255 | the day count of `upcoming_birthdays` is between 0 and 365, and it is missing exactly when a `replace` raises |
| Birthdays.DaysUntilZero | zad_z_mod1.py:251-257 | the day count is 0 exactly when the birthdate's month and day are today's |
| Birthdays.NextBirthdayLeapDay | zad_z_mod1.py:251-253 | a 29 February birthdate raises exactly when today's year is common, or the day has passed and the next year is common |
| Birthdays.UpcomingConcat | zad_z_mod1.py:246-258 | names come out in dictionary order, and the call raises if any part raises |
| Birthdays.UpcomingSucceeds | zad_z_mod1.py:247-253 | the call completes exactly when every recorded birthdate has a next occurrence |
| Birthdays.UpcomingFailsOnLeapDay | zad_z_mod1.py:251 | any 29 February birthdate in a common current year makes the call raise |
| Birthdays.BornOnNames | zad_z_mod1.py:246-258 | a name is in the list of today's birthdays exactly when some record of that name has a birthdate on today's month and day |
| Birthdays.UpcomingWindowZero | zad_z_mod1.py:257-258 | a window of 0 days keeps exactly the records whose birthday is today |
| Birthdays.WholeDaysFloor | zad_z_mod1.py:160 | `.days` of a midnight minus a time later than midnight is one less than the difference of the dates |
| Birthdays.DaysToBirthdateAtMidnight | zad_z_mod1.py:151-160 | at exactly midnight `days_to_birthdate` agrees with the date-based count, including the errors |
| Birthdays.DaysToBirthdateAfterMidnight | zad_z_mod1.py:155-160 | after midnight, a birthday n > 0 days ahead is reported as n - 1 |
| Birthdays.DaysToBirthdateOnBirthday | zad_z_mod1.py:155-160 | after midnight on the birthday itself, 364 or 365 is reported where the date-based count is 0 |
| Birthdays.DaysToBirthdateOnLeapDay | zad_z_mod1.py:155-159 | after midnight on 29 February, a 29 February birthday is moved into the next, common year and the `replace` raises, where the date-based count is 0 |
| Notes.Note.constructor | zad_z_mod1.py:492-495 | a new note has the given content and no tags |
| Notes.Note.AddTag | zad_z_mod1.py:497-498 | the tag is appended, repeated ones included |
| Notes.NotesWithTag | zad_z_mod1.py:560-565 | `search_tag` returns exactly the notes whose tag list contains the tag |
| Notes.NotesWithTagConcat | zad_z_mod1.py:562-564 | search results keep notebook order |
| Notes.SelectStable | zad_z_mod1.py:563 | a search depends only on which notes carry the tag |
| Notes.InsertSorted | zad_z_mod1.py:569-571 | inserting into a strictly ascending tag list keeps it strictly ascending and adds only that tag |
| Notes.SortedTags | zad_z_mod1.py:569-571 | `sorted(set(all tags))` is strictly ascending and holds exactly the tags carried by some note |
| Notes.SortTags | zad_z_mod1.py:567-574 | keys strictly ascending, exactly the tags on some note, each mapped to `search_tag` of it, which is non-empty |
| Notes.SortTagsExample | zad_z_mod1.py:567-574 | notes tagged ["b"], ["a"], ["a","b"] give "a" → notes 2 and 3, "b" → notes 1 and 3 |
| Notes.Notebook.constructor | zad_z_mod1.py:505-506 | a new notebook has no notes |
| Notes.Notebook.AddNote | zad_z_mod1.py:509-512 | a new untagged note with the content is appended and the earlier notes stay |
| Notes.Notebook.DeleteNote | zad_z_mod1.py:522-528 | with 1 ≤ k ≤ len, exactly note k−1 is removed and the rest keep their order; otherwise nothing changes |
| Notes.Notebook.LoadNotes | zad_z_mod1.py:537-545 | the loaded notes, an empty list if the file is missing, the previous notes on any other error |
| Notes.Tag.constructor | zad_z_mod1.py:549-550 | the manager refers to the given notebook |
| Notes.Tag.AddTag | zad_z_mod1.py:552-558 | with 1 ≤ k ≤ len the tag is appended to note k−1 only and that note is then found by `search_tag`; other notes' tags and every search for another tag are unchanged; out of range nothing changes |

## Left out

- Console and UI: `UserInterface`, `ConsoleInterface`, `AssistantBot.main` and the prompt loops (`input_phone_number`, `input_email_address`, `create_record`). They are interactive I/O. `main` also calls a `display_message` that no interface defines.
- Printing: `show_all_records`, `show_notes`, every `print`, and all `__str__` formatting. The joined list of names at the end of `upcoming_birthdays` is returned instead of printed.
- Input parsing: the `input()` and `int()` handling in `delete_record_by_id` and `delete_record`. `Directory.AddressBook.DeleteById` takes the integer id, and a `ValueError` from `int()` changes nothing. The listing step of `delete_record` is `Search.FindRecordsByName`. `int(days)` in `upcoming_birthdays` becomes an integer parameter.
- `edit_record` is interactive. It tests `name_to_edit in book.data` against integer keys, so it never finds a record. Only the `Record.edit_*` methods it would call are modelled.
- Stored records: the address book stores a value snapshot (`Contacts.Contact`) of the record it is given, not a reference to the object. The code mutates a stored record only through `edit_record`, which never reaches one.
- Persistence: the pickle I/O of `save_address_book`, `load_address_book`, `save_notes` and `load_notes` is file I/O and serialisation. The read is modelled by its outcome (`Wrappers.LoadOutcome`). `save_*` only write a file and are left out.
- Clock: `datetime.now()` becomes a date parameter and, for `days_to_birthdate`, a microsecond-of-day parameter. `Note.created_at` is not modelled.
- `strptime`: its textual lenience (unpadded fields, surrounding text) is not modelled. A birthdate is the parsed (year, month, day).
- Regular expressions: Unicode `\d`, and `$` also matching before a final newline, are not modelled. Digits are ASCII `0`–`9`.
- `str.lower()` lower-cases ASCII letters only.
- `list.remove` compares `PhoneNumber`/`EmailAddress` objects by identity, since they define no `__eq__`. The model compares them by value.
- `AddressBook.current` is set by the constructors. In the code it exists only after `__iter__`: calling `__next__` first raises `AttributeError`, which is not modelled.
- Notes.Notebook.LoadNotes: an error other than a missing file keeps the previous notes. The code keeps them, although the intent could be read as starting empty.
- Tags are kept in a list, as the code does. A set was not used, so repeated tags are appended again.
- Notes.Notebook.Valid: every note object appears once in the notebook. `add_note` always appends a new object, and a loaded list is required to satisfy the same condition. Aliased notes from an arbitrary pickle are not modelled.

## Findings

| source | as written | input that shows it | evidently intended | confidence | as-written member | corrected member |
|---|---|---|---|---|---|---|
| zad_z_mod1.py:155-160 | `days_to_birthdate` compares `datetime.now()`, with its time of day, against the birthday at midnight and floors the difference | birthday 15 June, now 15 June 2024 10:00: reports 364 instead of 0; now 14 June 10:00: reports 0 instead of 1 | the date-based count of `upcoming_birthdays`: 0 on the birthday, n when it is n days ahead | high, not executed | Birthdays.DaysToBirthdateOnBirthday | Birthdays.DaysUntilBirthday |
| zad_z_mod1.py:155-159 | after midnight on 29 February, `today > next_birthday` moves a 29 February birthday to `today.year + 1`, a common year, and `replace` raises `ValueError`; `Record.__str__` (zad_z_mod1.py:172) calls it for every record with a birthdate | birthday 29 February 2000, now 29 February 2024 10:00: raises instead of reporting 0 | 0 on the birthday, as the date-based count gives | high, not executed | Birthdays.DaysToBirthdateOnLeapDay | Birthdays.DaysUntilBirthday |
| zad_z_mod1.py:223-230 | after a name miss, both the phone loop and the e-mail loop may append the same record (`break` leaves only the inner loop) | name "Jan", phone 500600700, e-mail jan500@poczta.pl, term "500": returns the record twice | each matching record listed once, as the `continue` after a name match does | medium, not executed | Search.FindRecordListsTwice | Search.FindRecordOnce |
