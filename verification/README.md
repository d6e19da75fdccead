# BotAssistant contact book in Dafny

A model of the in-memory core of BotAssistant. BotAssistant is a command-line contact manager. Each contact has a name, an optional birthday and an ordered list of phone numbers. The model covers:

- the validated fields `Name`, `Phone` and `Birthday`;
- the `Record` phone operations and `days_to_birthday`;
- the insertion-ordered `AddressBook` with add/find/delete/search;
- the ten-rows-per-page paginator;
- the `add`, `change`, `phone` and `delete` command handlers, together with the `input_error` decorator that turns their exceptions into replies.

Everything is an immutable value. Operations are pure functions that return `Result`/`Option` in place of raising. The only methods are two loops: the one in `search_records` and its inner loop over phones.

| file | module | models |
|---|---|---|
| errors.dfy | `Errors` | the exceptions raised (`KeyError`, `ValueError` with its reason, `IndexError`, `AttributeError`), `Option`, `Result` |
| seqs.dfy | `Seqs` | first index, removal of a value, distinctness, subsequence, flattening |
| text.dfy | `Text` | ASCII `str.lower` and substring `in` |
| fields.dfy | `Fields` | `Field`, `Name`, `Phone`, `Birthday` validation; the `^\d{10}$` regex |
| calendar.dfy | `Calendar` | proleptic Gregorian day numbers, `date.replace`, the day count of `days_to_birthday` |
| records.dfy | `Records` | `Record` and its phone operations |
| books.dfy | `Books` | `AddressBook` as a sequence of `(name, Record)` entries with unique keys |
| pages.dfy | `Pages` | `Iterable`, the page-counter state machine, and the pages `print_book` walks |
| bot.dfy | `Bot` | `set_contact`, `update_phone`, `get_phone`, `remove`, `input_error` |

Behaviours of the code a reader might not expect:

- **`Phone` accepts a trailing newline.** Python's `$` also matches just before a final `"\n"`, so `"0123456789\n"` is a valid phone. `Fields.PhoneValidIff` shows that the regex walk accepts exactly ten digits, optionally followed by one newline.
- **`remove_phone` does not remove every copy.** The loop deletes from the list while iterating over it. After a deletion, the element that slides into the freed slot is never examined. `Records.RemoveWalk` is that index walk, and `Records.SkipRemove` is the same removal stated on the list's structure. Given `["1111111111", "1111111111", "2222222222"]`, removing `"1111111111"` leaves one copy (`Records.AdjacentDuplicateSurvives`). Every copy is removed when no two copies are adjacent, and in particular when the phones are distinct.
- **The `add_record` guard never fires.** `if not record.name` tests a `Name` object, which is always truthy, so the guard is not modelled. An empty name is refused earlier, by `Name` itself.
- **Unknown contacts raise `ValueError`.** `change`, `phone` and `delete` raise `ValueError`, not a dedicated not-found error, and `KeyError` is never raised by these handlers. `input_error`'s `KeyError` branch is kept anyway.
- **`delete <name>` with no phone does not delete the contact**, whatever the help text says. If the contact has more than one phone the result is an `IndexError` reply. Otherwise it is the "last phone" refusal.
- **`bot.py` cannot start.** Its `COMMANDS` table names `set_birthday`, which is not defined anywhere. Running the class body therefore raises `NameError`. There is no `set_birthday` handler.

## Model

| member | source | states |
|---|---|---|
| Fields.MatchDigitsMeaning | BotAssistant/BotAssistant/address_book.py:57 | `\d{k}$` tried at position j matches iff the next k characters are digits and then the string ends, or a final newline follows |
| Fields.PhoneValidIff | BotAssistant/BotAssistant/address_book.py:54-57 | `re.match(r'^\d{10}$', s)` accepts exactly ten digits, optionally followed by one newline |
| Fields.PhoneExamples | BotAssistant/BotAssistant/address_book.py:57 | a phone with a trailing newline is accepted; nine digits, or ten followed by two newlines, are not |
| Fields.New | BotAssistant/BotAssistant/address_book.py:13-16 | construction succeeds iff the value is valid for the field's kind; the stored value is the input; otherwise `ValueError` |
| Fields.NewPhoneIff | BotAssistant/BotAssistant/address_book.py:54-57 | constructing a `Phone` succeeds iff the string has the phone shape, and then holds exactly the input |
| Fields.SetValue | BotAssistant/BotAssistant/address_book.py:23-27 | the setter re-validates; on success the field holds the new value and keeps its kind; on failure it raises and the old value stays |
| Fields.NameRejectsOnlyEmpty | BotAssistant/BotAssistant/address_book.py:36-37 | a `Name` refuses only `""`, in the constructor and in the setter alike; a refused assignment keeps the old name |
| Fields.SetValueKeepsValid | BotAssistant/BotAssistant/address_book.py:23-27 | a field that holds a valid value still holds one after any assignment attempt |
| Calendar.Replace | BotAssistant/BotAssistant/address_book.py:77 | `date.replace(year=y)` succeeds iff y is in 1..9999 and the day exists in that month of y; a year out of range is reported first |
| Calendar.DaysUntil | BotAssistant/BotAssistant/address_book.py:74-84 | a successful count is in 1..366; a 29 February birthday in a common current year raises `ValueError` |
| Calendar.DaysUntilDefinedIff | BotAssistant/BotAssistant/address_book.py:77-84 | the count exists iff the birthday occurs this year and either lies ahead or also occurs next year |
| Calendar.DaysUntilIsNextOccurrence | BotAssistant/BotAssistant/address_book.py:78-84 | today plus the count is an occurrence of the birthday, and no occurrence in any year lies strictly between today and it |
| Calendar.DaysUntilOnBirthday | BotAssistant/BotAssistant/address_book.py:80-84 | on the birthday itself a zero difference counts as passed: the result is a full year, 365 or 366 days, to the same date next year |
| Calendar.NewYearIn2024 | BotAssistant/BotAssistant/address_book.py:80-84 | born 1 January, asked on 1 January 2024: 366 days |
| Calendar.NextYearGap | BotAssistant/BotAssistant/address_book.py:84 | the same month and day one year later is 365 or 366 days on, depending on which February lies between |
| Records.NewRecord | BotAssistant/BotAssistant/address_book.py:61-67 | a record is created iff the name is non-empty; it starts with no phones and the given birthday |
| Records.AddPhone | BotAssistant/BotAssistant/address_book.py:69-71 | succeeds iff the phone has the phone shape; then the phone is appended at the end and nothing else changes; no duplicate check |
| Records.EditPhone | BotAssistant/BotAssistant/address_book.py:87-93 | an invalid new phone fails before any search; otherwise succeeds iff the old phone is listed; only its first occurrence is replaced, the length and all other entries stay |
| Records.FindPhone | BotAssistant/BotAssistant/address_book.py:95-99 | finds a phone iff an equal one is listed, and returns that value |
| Records.RemoveWalkIsSkipRemove | BotAssistant/BotAssistant/address_book.py:102-105 | the delete-while-iterating index walk equals the structural definition: a matching phone is dropped and its successor kept unexamined |
| Records.SkipRemoveShorter | BotAssistant/BotAssistant/address_book.py:102-105 | removal never lengthens the list and never empties a list of two or more |
| Records.SkipRemoveKeepsOthers | BotAssistant/BotAssistant/address_book.py:102-105 | phones other than the target survive in their original order and number |
| Records.SkipRemoveDropsTarget | BotAssistant/BotAssistant/address_book.py:102-105 | only copies of the target are removed: every other phone keeps its count, and at least one copy of the target goes when it is present |
| Records.SkipRemoveAbsent | BotAssistant/BotAssistant/address_book.py:102-105 | with no match the list is unchanged |
| Records.SkipRemoveRemovesAllWhenApart | BotAssistant/BotAssistant/address_book.py:102-105 | when no two copies of the target are adjacent, every copy is removed |
| Records.SkipRemoveKeepsDistinct | BotAssistant/BotAssistant/address_book.py:102-105 | removing from distinct phones leaves them distinct |
| Records.AdjacentDuplicateSurvives | BotAssistant/BotAssistant/address_book.py:102-105 | of two adjacent equal phones, only the first is removed |
| Records.RemovePhone | BotAssistant/BotAssistant/address_book.py:102-105 | the record keeps its name and birthday; its phones are the walk's result, with all the properties above |
| Records.DaysToBirthday | BotAssistant/BotAssistant/address_book.py:74-75 | a record without a birthday fails with `AttributeError`; a count is always in 1..366 |
| Books.Find | BotAssistant/BotAssistant/address_book.py:120-121 | finds a record iff the key is present, and the record found is the one stored under that key |
| Books.Put | BotAssistant/BotAssistant/address_book.py:118 | after `data[key] = rec` the key finds rec and no other key changes; a present key keeps its position; a new key goes last |
| Books.AddRecord | BotAssistant/BotAssistant/address_book.py:115-118 | after `add_record(r)`, `find(r.name)` returns r; an overwrite keeps the key order and changes no other entry |
| Books.Delete | BotAssistant/BotAssistant/address_book.py:123-124 | the key is gone, all other keys keep their records and order, and an absent key leaves the book unchanged |
| Books.SameFindsSameBook | BotAssistant/BotAssistant/address_book.py:114 | two dictionaries with the same key order and the same record under each key are equal |
| Books.Select | BotAssistant/BotAssistant/address_book.py:150-163 | reference filter: exactly the entries whose name contains the text ignoring case, or one of whose phones contains it, kept in book order |
| Books.SelectEmptyText | BotAssistant/BotAssistant/address_book.py:154 | searching for the empty text keeps every entry |
| Books.AnyPhoneContains | BotAssistant/BotAssistant/address_book.py:158-161 | the inner loop reports a hit iff some phone contains the text, case-sensitively |
| Books.SearchRecords | BotAssistant/BotAssistant/address_book.py:150-163 | the new book holds exactly the matching entries of the original, in order; it equals the reference filter |
| Pages.Start | BotAssistant/BotAssistant/address_book.py:165-175 | a fresh paginator is at page 0, with ten rows per page, over the book's values |
| Pages.Next | BotAssistant/BotAssistant/address_book.py:177-193 | stops iff page*n has reached the total, and stopping leaves the state unchanged; otherwise it advances one page and returns at most n records, at least one when n > 0 |
| Pages.DrainCovers | BotAssistant/BotAssistant/address_book.py:177-193 | the pages concatenate to the records not yet paged, in order |
| Pages.DrainShape | BotAssistant/BotAssistant/address_book.py:177-193 | every page but the last is full and the last holds 1..n; the page count is the ceiling of the remaining records over n |
| Pages.ExhaustStops | BotAssistant/BotAssistant/address_book.py:184-185 | once the paginator stops it keeps stopping, in the same state |
| Pages.PrintBookPaging | BotAssistant/BotAssistant/address_book.py:126-135 | the pages `print_book` prints concatenate to the book's values in insertion order; all hold ten records except the last; there are ceil(total/10) of them, none for an empty book |
| Pages.FiveRecordsInPairs | BotAssistant/BotAssistant/address_book.py:177-193 | a page size of 2 over five records yields pages of 2, 2 and 1 |
| Bot.InputError | BotAssistant/BotAssistant/bot.py:9-28 | a raised exception becomes a failure reply that leaves the book as it was; a normal return passes the new book and reply through |
| Bot.SetContactRaw | BotAssistant/BotAssistant/bot.py:51-64 | `set_contact` raises only exceptions that `input_error` catches |
| Bot.SetContact | BotAssistant/BotAssistant/bot.py:50-64 | too few arguments is an error. An unknown name with a valid phone appends a contact whose list is exactly that phone. A known name refuses a listed phone, otherwise appends the valid phone at the end of its list. Other contacts and the key order are unchanged, and nothing changes on failure |
| Bot.UpdatePhoneRaw | BotAssistant/BotAssistant/bot.py:68-78 | `update_phone` raises only exceptions that `input_error` catches |
| Bot.UpdatePhone | BotAssistant/BotAssistant/bot.py:66-78 | an unknown contact fails with the book unchanged; on a known contact, success iff the old phone is listed and the new one is valid, replacing only the first occurrence; nothing else changes |
| Bot.GetPhoneRaw | BotAssistant/BotAssistant/bot.py:82-85 | `get_phone` raises only exceptions that `input_error` catches |
| Bot.GetPhone | BotAssistant/BotAssistant/bot.py:80-85 | never changes the book; an unknown name is an error; otherwise it replies with the contact's phones in stored order |
| Bot.RemoveRaw | BotAssistant/BotAssistant/bot.py:88-100 | `remove` raises only exceptions that `input_error` catches |
| Bot.Remove | BotAssistant/BotAssistant/bot.py:86-100 | an unknown contact or one with at most one phone is refused, unchanged. Otherwise the contact's phones become the result of the `remove_phone` walk: at least one copy of the target goes when it is listed, 1..n phones remain, the other phones keep their order, and every other contact is unchanged |
| Bot.RemoveReportsAbsentPhoneRemoved | BotAssistant/BotAssistant/bot.py:92-100 | `delete` replies success for a phone the contact never had, and the book is unchanged |
| Bot.SetContactKeepsInvariant | BotAssistant/BotAssistant/bot.py:50-64 | every contact stored under its own name with at least one phone stays so after `add` |
| Bot.UpdatePhoneKeepsInvariant | BotAssistant/BotAssistant/bot.py:66-78 | the same invariant holds after `change` |
| Bot.RemoveKeepsInvariant | BotAssistant/BotAssistant/bot.py:88-98 | the same invariant holds after `delete`: no contact is left without phones |
| Bot.ChangeCanDuplicatePhone | BotAssistant/BotAssistant/bot.py:69-74 | `change` to a phone the contact already lists, alongside the old one, succeeds and leaves that phone listed twice |
| Bot.ChangeDuplicateExample | BotAssistant/BotAssistant/bot.py:69-74 | Ann with 1111111111 and 2222222222, after `change Ann 1111111111 2222222222`, has 2222222222 twice |
| Bot.UpdatePhoneIntendedRaw | BotAssistant/BotAssistant/bot.py:68-78 | the corrected `update_phone` raises only exceptions that `input_error` catches |
| Bot.UpdatePhoneIntended | BotAssistant/BotAssistant/bot.py:69-74 | corrected `change`: succeeds iff the old phone is listed, the new one is not, and the new one is valid; only the first occurrence is replaced |
| Bot.SetContactKeepsDistinct | BotAssistant/BotAssistant/bot.py:52-59 | `add` never lists a phone twice in a contact |
| Bot.IntendedChangeKeepsDistinct | BotAssistant/BotAssistant/bot.py:71-74 | the corrected `change` never lists a phone twice in a contact |
| Bot.RemoveKeepsDistinct | BotAssistant/BotAssistant/bot.py:88-98 | `delete` keeps phones distinct, and on distinct phones the target is then gone completely |

## Findings

| source | as written | input that shows it | evidently intended | confidence | as-written member | corrected member |
|---|---|---|---|---|---|---|
| BotAssistant/BotAssistant/bot.py:71-74 | The guard before `edit_phone` refuses only when the old phone is missing AND the new phone is already listed. | Contact Ann with phones 1111111111 and 2222222222, then `change Ann 1111111111 2222222222`: it succeeds and Ann lists 2222222222 twice. | Refuse when the old phone is missing OR the new one is already listed, as the error message itself says ("is not found! or ... is present"). | medium; not executed | Bot.UpdatePhone, shown by Bot.ChangeCanDuplicatePhone and Bot.ChangeDuplicateExample | Bot.UpdatePhoneIntended, with Bot.IntendedChangeKeepsDistinct |

With the corrected `change`, all three phone-editing handlers keep every contact's phones distinct (`Bot.SetContactKeepsDistinct`, `Bot.IntendedChangeKeepsDistinct`, `Bot.RemoveKeepsDistinct`). On distinct phones, the skipping walk of `delete` removes its target completely.

## Left out

- Persistence: `save_address_book` and `recover_address_book` (pickle and file I/O), and all of `db_connector.py`. These are I/O.
- Console I/O: `start_bot`, `answer_greeting`, `help_info`, `quit_bot`, `get_handler`/`COMMANDS`, `display`, `filter_contacts`, and the printing in `print_book`. The model keeps only the sequence of pages `print_book` walks (`Pages.PrintBookPages`) and the search `filter_contacts` calls.
- The `print` inside `Birthday.is_valid`, and `__str__`/`__repr__` of `Field` and `Record`. These only render text.
- Birthday parsing, which is done by `dateutil.parser.parse`, a foreign library. In `Fields.IsValid` a birthday's validity is an opaque predicate passed in as `dateParses`. A record stores its birthday as an already parsed date (`Records.NewRecord` takes an `Option<Date>`), so `Record.__init__`'s birthday validation is not modelled.
- `datetime.now()`: the current date is the parameter `today`. The two clock reads in `days_to_birthday` are taken to fall on the same day.
- Unicode: `\d` and `str.lower()` are modelled for ASCII digits and ASCII letters only.
- Exact message strings: replies carry the exception kind and its reason, not the text.
- A book changed during pagination: line 188 re-reads `values()` on every call, but the model pages over a fixed list of values.
- Records.DaysToBirthday: states only the missing-birthday error and the 1..366 bound. The other properties of the count are stated on `Calendar.DaysUntil` and its lemmas.
- Pages.Drain: the lemmas require a page size above zero. `Iterable` is only ever built with `ROWS_PER_PAGE = 10`, and with a size of 0 it would return empty pages forever.
- Phone object identity: `list.remove(phone)` removes the object the loop is looking at, because `Phone` defines no equality and each `add_phone` creates a new object. The model therefore deletes the current index.
