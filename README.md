# SuperMegaPhoneBook in Dafny

A model of SuperMegaPhoneBook, a small command-line contact directory.
It keeps one table of (name, phone) records in an SQLite file. The phone
column is unique. The program is driven either by one command-line action
(`--add-entry`, `--remove-entry`, `--list-all`, `--search`, `--reset`) or by
an interactive menu loop. Both drivers validate the fields first and touch
storage only when validation passes.

The project has five files:

- `db_ops.dfy` (module `DbOps`): the `Person` record and the unique-phone
  invariant. It also holds the `Database` class, whose fields are the file's
  presence, the connection flag and the rows. Its methods model `init_db`,
  the creation check that `connector` makes, and three ORM calls the
  program uses: `get`, `save(force_insert=True)` and `delete_instance`.
  `Person.select()` is a read of the `rows` field while the connection is
  open.
- `phonebook_validate.dfy` (module `Validation`): `validate`, the 60-character
  name rule and the phone mask `^\+?\d{1,11}$`.
- `phonebook_storage.dfy` (module `Storage`): `add_entry`, `remove_entry`,
  `list_all_entries`, `search_entries_by_name` and `check_persons`. Each is a
  method that opens the connection, runs the query, closes the connection and
  returns the query's result, as the `connector` wrapper does. `add_entry`
  and `remove_entry` return the int 1 or `False`; the model returns true in
  place of 1, since both flows only test the result for truth.
- `phonebook_flows.dfy` (module `Flows`): `args_flow` and `interactive_flow`,
  and one program run (the five `connector` decorations, then one flow).
  - Each flow is a method proved equal to a function over the table and the
    input:
    `ArgsOutcome` for flag mode, and `Session` and `InteractiveOutcome` for
    the menu loop.
  - The menu loop reads its input lines from a given sequence of strings.
  - The printed output is a sequence of `Line` values.
- `test_scenarios.dfy` (module `Scenarios`): the assertions of the
  repository's end-to-end tests, stated over whole program runs.

Two behaviours of the code are easy to miss, and the model keeps both:

- Flag-mode remove calls `validate(args.phone)` with one positional
  argument, which lands in the `name` parameter. So the phone is checked by
  the 1-to-60-character name rule and not by the phone mask
  (`phonebook.py:126`). `Flows.ArgsRemoveMessages` and `Flows.RemoveJohnDoe`
  state the consequences. `Flows.RemoveJohnDoe` shows that
  `--remove-entry --phone "John Doe"` reaches storage and prints
  "Cannot find this number.", while the interactive remove rejects the same
  phone with the bad-number message.
- The menu loop also ends when `input()` raises `EOFError` because no input
  line is left (`phonebook.py:157`). The model records this as the ending
  `InputEnded`. Every record stored before that point stays stored.

## Model

| member | source | states |
|---|---|---|
| DbOps.WithoutMembers | phonebook.py:31-32 | after a delete by phone, a record remains exactly when it was in the table and has another phone |
| DbOps.WithoutAbsent | phonebook.py:31-34 | deleting a phone that no record has leaves the table as it was |
| DbOps.WithoutRemovesExactlyOne | phonebook.py:31-32 | with unique phones, deleting the phone of the record at index i removes that record only and keeps the others in order |
| DbOps.WithoutAppend | phonebook.py:31-32 | a delete by phone distributes over concatenation of tables |
| DbOps.AddThenRemove | phonebook.py:18-34 | adding a record with a new phone and then removing that phone gives back the previous table |
| DbOps.DistinctAfterInsert | db_ops.py:9 | inserting a phone not yet present keeps all phones distinct |
| DbOps.DistinctAfterWithout | db_ops.py:9 | a delete by phone keeps all phones distinct |
| DbOps.DistinctTail | db_ops.py:9 | the tail of a table with unique phones has unique phones and does not contain the head's phone |
| DbOps.Database.constructor | db_ops.py:4 | the state found on disk: a file with distinct phones, or no file and no rows |
| DbOps.Database.InitDb | db_ops.py:15-20 | whatever the table held, afterwards the file exists, the table is empty and the connection is closed |
| DbOps.Database.Connector | db_ops.py:23-25 | creates the empty table only when the file is missing; an existing table is left untouched |
| DbOps.Database.Connect | db_ops.py:28 | opening requires a closed connection and opens it |
| DbOps.Database.Close | db_ops.py:30 | the connection is closed afterwards |
| DbOps.Database.Get | phonebook.py:32 | returns the index of a record with the phone, and DoesNotExist exactly when no record has it |
| DbOps.Database.Insert | phonebook.py:19-20 | inserts and returns 1 exactly when the phone is new, and otherwise raises IntegrityError and leaves the table unchanged; phones stay distinct |
| DbOps.Database.DeleteInstance | phonebook.py:32 | deletes the record at the index, returns 1, and phones stay distinct |
| Validation.Validate | phonebook.py:58-77 | valid iff every given field passes its check; valid iff nothing is printed; prints the name message iff a given name is bad and the phone message iff a given phone is bad, in that order |
| Validation.ValidateNothing | phonebook.py:64-67 | `validate()` with no field given is true and prints nothing |
| Validation.PhoneMaskShape | phonebook.py:6 | a phone passes the mask iff it is 1 to 11 digits, with or without one leading '+' |
| Validation.PhoneMaskFitsColumn | db_ops.py:9 | every phone the mask accepts has at most 12 characters |
| Validation.NameBoundaries | phonebook.py:69 | the empty name and "John Doe" repeated 30 times are rejected; "a" and "Mister X" are accepted |
| Validation.PhoneBoundaries | phonebook.py:73 | "+12345678901" and "12345678901" pass; "", "+", "+123456789012" and "John Doe" fail |
| Validation.RepeatLength | test_phonebook.py:90 | a string repeated n times is n times as long |
| Storage.AddEntry | phonebook.py:10-21 | true iff no record had the phone; on true the table gains exactly (name, phone), on false it is unchanged; the connection is opened and closed again around the query, as the connector wrapper (db_ops.py:27-31) does; true stands for the 1 that `save` returns |
| Storage.RemoveEntry | phonebook.py:24-34 | true iff a record had the phone; on true that record is deleted, on false the table is unchanged; the connection is closed again |
| Storage.ListAllEntries | phonebook.py:37-43 | returns the (name, phone) pair of every record in table order; the table is unchanged |
| Storage.SearchEntriesByName | phonebook.py:46-55 | returns the pairs of exactly the records whose name contains the query; the table is unchanged |
| Storage.EntriesAt | phonebook.py:43 | the k-th listed pair is the name and phone of the k-th record |
| Storage.EntriesMembers | phonebook.py:43 | a pair is listed iff it is a record of the table |
| Storage.ContainsIsSubstring | phonebook.py:55 | the pattern '*q*' matches a name iff q occurs in it at some position |
| Storage.MatchingMembers | phonebook.py:54-55 | a record is selected iff it is in the table and its name contains the query |
| Storage.SearchResultsExact | phonebook.py:46-55 | a pair is in the search result iff it is a record whose name contains the query as a substring |
| Storage.PersonRepr | phonebook.py:84-87 | the dict of a record has exactly the keys 'name' and 'phone', holding its fields |
| Storage.CheckPersons | phonebook.py:80-89 | one dict per record in table order, each with the keys 'name' and 'phone' holding that record's fields; the table is unchanged |
| Flows.ArgsFlow | phonebook.py:115-138 | the table afterwards and the printed lines are those of the flag-mode function `ArgsOutcome` for the old table |
| Flows.ArgsAddMessages | phonebook.py:121-125 | flag-mode add prints "Success!" iff both fields pass and the phone is new, and "already in the PhoneBook" iff both pass and the phone is taken; the table changes iff "Success!", and then gains exactly the pair |
| Flows.ArgsRemoveMessages | phonebook.py:126-130 | flag-mode remove prints the name-length message iff the phone is not 1 to 60 characters long; "Success!" iff it is and a record has it, and then exactly that record is removed; "Cannot find this number." iff it is and no record has it |
| Flows.RemoveJohnDoe | phonebook.py:126 | on a table of valid records, flag-mode remove of "John Doe" prints "Cannot find this number.", while the interactive remove prints the bad-number message and changes nothing |
| Flows.ListAllShowsEveryRecord | phonebook.py:131-133 | flag-mode list prints one line per record; a line (n, p) is printed iff (n, p) is a record |
| Flows.ArgsSearchMessages | phonebook.py:134-136 | flag-mode search leaves the table alone; a bad name prints only the name message; otherwise a line is printed iff its record's name contains the query |
| Flows.ArgsKeepsWellFormed | phonebook.py:121-130 | flag mode keeps every record valid and the phones distinct |
| Flows.WellFormedFitsColumns | db_ops.py:7-9 | every record that passes validation fits the 60- and 12-character column widths |
| Flows.AddedKeepsWellFormed | phonebook.py:168-170 | adding a validated pair keeps every record valid and the phones distinct |
| Flows.WithoutKeepsWellFormed | phonebook.py:31-32 | a delete keeps every record valid and the phones distinct |
| Flows.MenuTurn | phonebook.py:157-187 | one pass of the loop body reads at least the menu choice and never more lines than it has; it ends the loop through the exit choice iff the choice is "0" |
| Flows.AddChoice | phonebook.py:165-170 | choice '1': reads a name and a phone, stores the pair only if both pass validation, and matches `AddTurn` |
| Flows.RemoveChoice | phonebook.py:171-175 | choice '2': reads a phone, removes it only if it passes the mask, and matches `RemoveTurn` |
| Flows.ListChoice | phonebook.py:176-179 | choice '3': prints the header and one line per record; the table is unchanged |
| Flows.SearchChoice | phonebook.py:180-185 | choice '4': reads a name and prints the matching records only if the name passes validation, and matches `SearchTurn` |
| Flows.LoopBody | phonebook.py:157-187 | one iteration of the menu loop: the table, the printed lines and the next input line agree with `MenuTurn` |
| Flows.InteractiveFlow | phonebook.py:141-189 | the table afterwards, the printed lines and the way the loop ended are those of the menu-loop function `InteractiveOutcome` |
| Flows.RunProgram | phonebook.py:192-196 | after the five connector checks the file exists; the run's table and output are `ProgramOutcome` of the state found on disk |
| Flows.SessionKeepsWellFormed | phonebook.py:150-187 | the menu loop keeps every record valid and the phones distinct, for every input |
| Flows.WrongChoiceReprompts | phonebook.py:161-163 | a choice other than '0' to '4' prints the error, changes nothing, and the loop goes on with the next line |
| Flows.ZeroExits | phonebook.py:159-189 | the choice "0" prints two separators and the farewell and ends the loop without touching the table |
| Flows.AddTurnOf | phonebook.py:165-170 | the turn of '1', name, phone: the pair is added when both fields pass, and otherwise only the diagnostics are printed; three lines are read |
| Flows.RemoveTurnOf | phonebook.py:171-175 | the turn of '2', phone: the phone is removed when it passes the mask, and otherwise only the diagnostic is printed; two lines are read |
| Flows.InvalidAddSkipsStorage | phonebook.py:168-169 | an interactive add whose fields fail prints the diagnostics, skips storage and the closing separator, and goes on |
| Flows.InvalidRemoveSkipsStorage | phonebook.py:173-174 | an interactive remove of a phone that fails the mask prints the bad-number message, skips storage, and goes on |
| Flows.SearchTurnOf | phonebook.py:180-185 | the turn of '4', name: the matching records and the separator are printed when the name passes, and otherwise only the diagnostic; two lines are read and the table is unchanged |
| Flows.InvalidSearchSkipsStorage | phonebook.py:182-183 | an interactive search with a bad name prints the name message, skips storage and the closing separator, and goes on |
| Flows.ValidAddIsSilent | phonebook.py:168-170 | an interactive add of valid fields adds the pair when the phone is new and prints no success or failure message |
| Flows.MenuTurnIgnoresLaterLines | phonebook.py:157-185 | a pass of the loop that goes on does not depend on the input lines after those it read |
| Flows.MenuTurnNeedsOnlyUsed | phonebook.py:157-185 | a pass of the loop that goes on is the same on just the lines it read |
| Flows.StopsAfterZero | phonebook.py:150 | once the loop has ended through "0", any further input lines change nothing: they are never read |
| Flows.ExitNeedsZero | phonebook.py:150 | the loop ends through the exit choice only by reading some line k, equal to "0", as a menu choice: the lines before k do not end the loop, and the session on the lines up to k is the whole session |
| Scenarios.PhoneIsNameLength | phonebook.py:126 | every phone the mask accepts also passes the name-length rule, so flag-mode remove lets it through |
| Scenarios.AddAndRemoveRecord | test_phonebook.py:68-84 | adding a valid new pair prints "Success!" and it is listed; removing its phone prints "Success!", it is no longer listed and the table is as before |
| Scenarios.BothFieldsRejected | test_phonebook.py:87-93 | the adds ("", ""), ("", "+123456789012") and ("", "John Doe") print both diagnostics and leave the table alone |
| Scenarios.OneFieldRejected | test_phonebook.py:87-92 | the adds ("", "+12345678901") and ("John Doe"*30, "+12345678901") print only the name diagnostic, and ("Mister X", "") only the phone diagnostic; the table is unchanged |
| Scenarios.BadInputs | test_phonebook.py:87-105 | each of the six rejected adds of the test prints exactly its diagnostics and leaves the table alone |
| Scenarios.AmendmentScenario | test_phonebook.py:108-127 | add A/P1, remove P1, add A/P2, remove P2, add B/P2 leaves the old table plus (B, P2), which is listed, and no record with name A or phone P1 |
| Scenarios.BillyButcher | test_phonebook.py:108-127 | the amendment scenario with the test's own names and phones ends with the old table plus ("Billy Kitty", "+777667") |
| Scenarios.ResetEmpties | test_phonebook.py:59-63 | `--reset` empties the table whatever it held, and a following `--list-all` prints nothing |

## Left out

- The SQLite file and the peewee ORM. The table is a sequence of records held in the `Database` class. The file's presence is a boolean. `os.listdir` and `os.remove` become updates to that boolean.
- Connection errors. Only the one rule that a connection cannot be opened twice is modelled, as a precondition. Other storage failures are fatal in the program and are not modelled.
- `get_args` and argparse. The chosen flag is an `Action` value, or the `Interactive` invocation. `--name` and `--phone` are given as strings because argparse defaults both to the empty string. A missing or conflicting flag is refused by argparse before either flow runs, so it is not modelled; the five connector checks have already run by then, so such a run still creates an empty database file when none was there.
- The text of `print` and `input`. Printed lines are `Line` values, one per message, and the five menu lines are one `Menu` value. The prompts of `input()` print nothing in the model.
- Flows.InteractiveFlow: when `input()` finds no line left it raises `EOFError`, and the program stops with a traceback. The model instead ends the session with `InputEnded` and keeps what was stored. The traceback text is not modelled.
- Storage.SearchEntriesByName: the search is a plain case-sensitive substring match. SQLite GLOB treats `*`, `?` and `[` in the query as wildcards, and that is not modelled.
- Validation.Validate: the digits of the phone mask are the ASCII digits only. Python's `\d` also matches other Unicode decimal digits, and its `$` also matches just before a trailing newline. Neither is modelled.
- Storage.ListAllEntries: the rows come back in insertion order. SQLite does not promise an order without ORDER BY. The membership lemmas (`Storage.EntriesMembers`, `Flows.ListAllShowsEveryRecord`) state the same results without depending on the order.
- The 60- and 12-character `max_length` of the columns is not enforced by SQLite, so the table does not enforce it. `Flows.WellFormedFitsColumns` shows that validated records fit the widths anyway. Flag-mode remove can pass a phone of up to 60 characters to storage, but such a phone is never stored.
- Scenarios.BadInputs: the test checks only that each expected message occurs in the output. The lemma states the whole output and the unchanged table, which is stronger. For ("", "+123456789012") and ("", "John Doe") the output also includes the name message, which the test does not look for.
- Scenarios.AmendmentScenario: the test checks that the strings A and P1 do not occur inside any listed line. The lemma states that no record has name A or phone P1.
