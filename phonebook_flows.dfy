// The two ways of driving the phone book: one action chosen by command-line
// flags, and the interactive menu loop. Both validate the fields first and
// call storage only when validation passes.

module Flows {
  import opened DbOps
  import opened Validation
  import opened Storage

  /** The lines the program prints (the prompts of input() are not modelled). */
  datatype Line =
    | Greeting                                 // 'Hi! I am a phone book. ...'
    | Menu                                     // the five menu lines
    | Separator                                // '-' * 15
    | WrongInput                               // 'Wrong input! Please repeat!'
    | PhoneBookHeader                          // 'Your Phone Book:'
    | Bye                                      // 'Thanks, bye!'
    | Diag(diagnostic: Diagnostic)             // printed by validate
    | Success                                  // 'Success!'
    | AlreadyInPhoneBook                       // 'This number is already in the PhoneBook.'
    | CannotFindNumber                         // 'Cannot find this number.'
    | EntryLine(name: string, phone: string)   // print(entry[0], entry[1])

  function DiagLines(ds: seq<Diagnostic>): (r: seq<Line>)
    ensures |r| == |ds|
    ensures forall k :: 0 <= k < |ds| ==> r[k] == Diag(ds[k])
  {
    if ds == [] then [] else [Diag(ds[0])] + DiagLines(ds[1..])
  }

  function EntryLines(es: seq<Entry>): (r: seq<Line>)
    ensures |r| == |es|
    ensures forall k :: 0 <= k < |es| ==> r[k] == EntryLine(es[k].0, es[k].1)
  {
    if es == [] then [] else [EntryLine(es[0].0, es[0].1)] + EntryLines(es[1..])
  }

  /** The table after add_entry(name, phone), whether it succeeded or not. */
  function Added(rows: seq<Person>, name: string, phone: string): seq<Person> {
    if HasPhone(rows, phone) then rows else rows + [Person(name, phone)]
  }

  /** The table after remove_entry(phone), whether it succeeded or not. */
  function Removed(rows: seq<Person>, phone: string): seq<Person> {
    if HasPhone(rows, phone) then Without(rows, phone) else rows
  }

  /** Every record passes validation (and the table keeps its UNIQUE column). */
  predicate WellFormed(rows: seq<Person>) {
    DistinctPhones(rows) &&
    forall k :: 0 <= k < |rows| ==> NameOk(rows[k].name) && PhoneMask(rows[k].phone)
  }

  // ---------------------------------------------------------------------
  // Flag mode
  // ---------------------------------------------------------------------

  /** The action chosen among the mutually exclusive flags (other than --interactive). */
  datatype Action = AddFlag | RemoveFlag | ListFlag | SearchFlag | ResetFlag

  datatype Outcome = Outcome(rows: seq<Person>, out: seq<Line>)

  /**
   * What args_flow does to the table and prints. --name and --phone default
   * to the empty string, so both fields are always given. The remove path
   * passes the phone as validate's first (name) argument, so it is checked
   * by the name-length rule and not by the phone mask.
   */
  function ArgsOutcome(rows: seq<Person>, action: Action, name: string, phone: string): Outcome {
    match action
    case AddFlag =>
      var v := Validate(Some(name), Some(phone));
      if !v.valid then Outcome(rows, DiagLines(v.diagnostics))
      else if HasPhone(rows, phone) then Outcome(rows, [AlreadyInPhoneBook])
      else Outcome(rows + [Person(name, phone)], [Success])
    case RemoveFlag =>
      var v := Validate(Some(phone), None);
      if !v.valid then Outcome(rows, DiagLines(v.diagnostics))
      else if HasPhone(rows, phone) then Outcome(Without(rows, phone), [Success])
      else Outcome(rows, [CannotFindNumber])
    case ListFlag =>
      Outcome(rows, EntryLines(Entries(rows)))
    case SearchFlag =>
      var v := Validate(Some(name), None);
      if !v.valid then Outcome(rows, DiagLines(v.diagnostics))
      else Outcome(rows, EntryLines(Entries(Matching(rows, name))))
    case ResetFlag =>
      Outcome([], [])
  }

  method ArgsFlow(db: Database, action: Action, name: string, phone: string)
    returns (out: seq<Line>)
    requires db.Valid() && db.fileExists && !db.connected
    modifies db
    ensures db.Valid() && db.fileExists && !db.connected
    ensures Outcome(db.rows, out) == ArgsOutcome(old(db.rows), action, name, phone)
  {
    out := [];
    if action == AddFlag {
      var verdict := Validate(Some(name), Some(phone));
      out := DiagLines(verdict.diagnostics);
      if verdict.valid {
        var ok := AddEntry(db, name, phone);
        out := out + [if ok then Success else AlreadyInPhoneBook];
      }
    }
    if action == RemoveFlag {
      var verdict := Validate(Some(phone), None);
      out := DiagLines(verdict.diagnostics);
      if verdict.valid {
        var ok := RemoveEntry(db, phone);
        out := out + [if ok then Success else CannotFindNumber];
      }
    }
    if action == ListFlag {
      var entries := ListAllEntries(db);
      out := EntryLines(entries);
    }
    if action == SearchFlag {
      var verdict := Validate(Some(name), None);
      out := DiagLines(verdict.diagnostics);
      if verdict.valid {
        var entries := SearchEntriesByName(db, name);
        out := out + EntryLines(entries);
      }
    }
    if action == ResetFlag {
      db.InitDb();
    }
  }

  // ---------------------------------------------------------------------
  // Interactive mode
  // ---------------------------------------------------------------------

  /** How the loop ended: by the menu choice '0', or by input() finding no more lines. */
  datatype Ending = Exited | InputEnded

  /** One pass of the loop body, after the menu was shown: it either goes
      round again having read `used` lines, or ends the loop. */
  datatype Turn =
    | Continue(rows: seq<Person>, out: seq<Line>, used: nat)
    | Stop(rows: seq<Person>, out: seq<Line>, ending: Ending)

  datatype SessionEnd = SessionEnd(rows: seq<Person>, out: seq<Line>, ending: Ending)

  function Then(prefix: seq<Line>, s: SessionEnd): SessionEnd {
    s.(out := prefix + s.out)
  }

  predicate IsMenuChoice(c: string) {
    c == "0" || c == "1" || c == "2" || c == "3" || c == "4"
  }

  /** The turn t with `prefix` printed before it and one more line read. */
  function Shift(prefix: seq<Line>, t: Turn): Turn {
    match t
    case Continue(after, out, used) => Continue(after, prefix + out, used + 1)
    case Stop(after, out, ending) => Stop(after, prefix + out, ending)
  }

  // Each action reads its own lines from `rest`, the lines after the menu
  // choice; running out of lines ends the loop, as input() raises EOFError.

  /** Choice '1': read a name and a phone, validate both, add. */
  function AddTurn(rows: seq<Person>, rest: seq<string>): (t: Turn)
    ensures t.Continue? ==> t.used <= |rest|
  {
    if |rest| < 2 then Stop(rows, [], InputEnded)
    else
      var v := Validate(Some(rest[0]), Some(rest[1]));
      if !v.valid then Continue(rows, DiagLines(v.diagnostics), 2)
      else Continue(Added(rows, rest[0], rest[1]), [Separator], 2)
  }

  /** Choice '2': read a phone, validate it against the mask, remove. */
  function RemoveTurn(rows: seq<Person>, rest: seq<string>): (t: Turn)
    ensures t.Continue? ==> t.used <= |rest|
  {
    if |rest| < 1 then Stop(rows, [], InputEnded)
    else
      var v := Validate(None, Some(rest[0]));
      if !v.valid then Continue(rows, DiagLines(v.diagnostics), 1)
      else Continue(Removed(rows, rest[0]), [Separator], 1)
  }

  /** Choice '3': print the header and every entry. */
  function ListTurn(rows: seq<Person>): Turn {
    Continue(rows, [PhoneBookHeader] + EntryLines(Entries(rows)) + [Separator], 0)
  }

  /** Choice '4': read a name, validate it, print the matching entries. */
  function SearchTurn(rows: seq<Person>, rest: seq<string>): (t: Turn)
    ensures t.Continue? ==> t.used <= |rest|
  {
    if |rest| < 1 then Stop(rows, [], InputEnded)
    else
      var v := Validate(Some(rest[0]), None);
      if !v.valid then Continue(rows, DiagLines(v.diagnostics), 1)
      else Continue(rows, EntryLines(Entries(Matching(rows, rest[0]))) + [Separator], 1)
  }

  /**
   * The loop body on the input lines not yet read, after the menu was
   * shown: read the menu choice, print the separator, run the action.
   */
  function MenuTurn(rows: seq<Person>, inputs: seq<string>): (t: Turn)
    requires inputs != []
    ensures t.Continue? ==> 1 <= t.used <= |inputs|
    ensures t.Stop? && t.ending == Exited <==> inputs[0] == "0"
  {
    var choice, rest := inputs[0], inputs[1..];
    if !IsMenuChoice(choice) then Continue(rows, [Separator, WrongInput], 1)
    else if choice == "0" then Stop(rows, [Separator, Separator, Bye], Exited)
    else if choice == "1" then Shift([Separator], AddTurn(rows, rest))
    else if choice == "2" then Shift([Separator], RemoveTurn(rows, rest))
    else if choice == "3" then Shift([Separator], ListTurn(rows))
    else Shift([Separator], SearchTurn(rows, rest))
  }

  /** The table, the printed lines and the next line to read agree with the
      turn t started at line `from`. */
  ghost predicate Performed(t: Turn, rows: seq<Person>, printed: seq<Line>,
                            from: nat, next: nat, ended: bool)
  {
    match t
    case Continue(after, out, used) =>
      !ended && rows == after && printed == out && next == from + used
    case Stop(after, out, ending) =>
      rows == after && ended == (ending == InputEnded) &&
      (if ended then printed == out else printed + [Bye] == out)
  }

  /** The menu loop run on the remaining input lines. */
  function Session(rows: seq<Person>, inputs: seq<string>): SessionEnd
    decreases |inputs|
  {
    if inputs == [] then SessionEnd(rows, [Menu], InputEnded)
    else
      match MenuTurn(rows, inputs)
      case Stop(after, out, ending) => SessionEnd(after, [Menu] + out, ending)
      case Continue(after, out, used) => Then([Menu] + out, Session(after, inputs[used..]))
  }

  lemma SessionStep(rows: seq<Person>, inputs: seq<string>)
    requires inputs != []
    ensures Session(rows, inputs) ==
      match MenuTurn(rows, inputs)
      case Stop(after, out, ending) => SessionEnd(after, [Menu] + out, ending)
      case Continue(after, out, used) => Then([Menu] + out, Session(after, inputs[used..]))
  {
  }

  lemma ThenThen(a: seq<Line>, b: seq<Line>, s: SessionEnd)
    ensures Then(a, Then(b, s)) == Then(a + b, s)
  {
    assert a + (b + s.out) == (a + b) + s.out;
  }

  /** interactive_flow: the greeting, then the menu loop. */
  function InteractiveOutcome(rows: seq<Person>, inputs: seq<string>): SessionEnd {
    Then([Greeting], Session(rows, inputs))
  }

  method AddChoice(db: Database, inputs: seq<string>, i: nat)
    returns (printed: seq<Line>, next: nat, ended: bool)
    requires db.Valid() && db.fileExists && !db.connected
    requires i <= |inputs|
    modifies db
    ensures db.Valid() && db.fileExists && !db.connected
    ensures i <= next <= |inputs|
    ensures Performed(AddTurn(old(db.rows), inputs[i..]), db.rows, printed, i, next, ended)
  {
    printed, next, ended := [], i, false;
    if i + 1 >= |inputs| {
      ended := true;
      return;
    }
    var name := inputs[i];
    var phone := inputs[i + 1];
    assert inputs[i..][0] == name && inputs[i..][1] == phone;
    next := i + 2;
    var verdict := Validate(Some(name), Some(phone));
    if !verdict.valid {
      printed := DiagLines(verdict.diagnostics);
      return;
    }
    var _ := AddEntry(db, name, phone);
    printed := [Separator];
  }

  method RemoveChoice(db: Database, inputs: seq<string>, i: nat)
    returns (printed: seq<Line>, next: nat, ended: bool)
    requires db.Valid() && db.fileExists && !db.connected
    requires i <= |inputs|
    modifies db
    ensures db.Valid() && db.fileExists && !db.connected
    ensures i <= next <= |inputs|
    ensures Performed(RemoveTurn(old(db.rows), inputs[i..]), db.rows, printed, i, next, ended)
  {
    printed, next, ended := [], i, false;
    if i == |inputs| {
      ended := true;
      return;
    }
    var phone := inputs[i];
    next := i + 1;
    var verdict := Validate(None, Some(phone));
    if !verdict.valid {
      printed := DiagLines(verdict.diagnostics);
      return;
    }
    var _ := RemoveEntry(db, phone);
    printed := [Separator];
  }

  method ListChoice(db: Database) returns (printed: seq<Line>)
    requires db.Valid() && db.fileExists && !db.connected
    modifies db
    ensures db.Valid() && db.fileExists && !db.connected
    ensures db.rows == old(db.rows)
    ensures [PhoneBookHeader] + EntryLines(Entries(db.rows)) + [Separator] == printed
  {
    printed := [PhoneBookHeader];
    var entries := ListAllEntries(db);
    printed := printed + EntryLines(entries) + [Separator];
  }

  method SearchChoice(db: Database, inputs: seq<string>, i: nat)
    returns (printed: seq<Line>, next: nat, ended: bool)
    requires db.Valid() && db.fileExists && !db.connected
    requires i <= |inputs|
    modifies db
    ensures db.Valid() && db.fileExists && !db.connected
    ensures i <= next <= |inputs|
    ensures Performed(SearchTurn(old(db.rows), inputs[i..]), db.rows, printed, i, next, ended)
  {
    printed, next, ended := [], i, false;
    if i == |inputs| {
      ended := true;
      return;
    }
    var name := inputs[i];
    next := i + 1;
    var verdict := Validate(Some(name), None);
    if !verdict.valid {
      printed := DiagLines(verdict.diagnostics);
      return;
    }
    var entries := SearchEntriesByName(db, name);
    printed := EntryLines(entries) + [Separator];
  }

  /** The body of the while loop of interactive_flow, from reading the menu
      choice to the closing separator. */
  method LoopBody(db: Database, inputs: seq<string>, i: nat)
    returns (userInput: string, printed: seq<Line>, next: nat, ended: bool)
    requires db.Valid() && db.fileExists && !db.connected
    requires i < |inputs|
    modifies db
    ensures db.Valid() && db.fileExists && !db.connected
    ensures userInput == inputs[i]
    ensures i < next <= |inputs|
    ensures Performed(MenuTurn(old(db.rows), inputs[i..]), db.rows, printed, i, next, ended)
  {
    ghost var rest := inputs[i..][1..];
    assert inputs[i..][0] == inputs[i] && rest == inputs[i + 1..];
    userInput := inputs[i];
    printed := [Separator];
    if !IsMenuChoice(userInput) {
      printed, next, ended := printed + [WrongInput], i + 1, false;
    } else if userInput == "0" {
      printed, next, ended := printed + [Separator], i + 1, false;
    } else {
      var shown;
      if userInput == "1" {
        shown, next, ended := AddChoice(db, inputs, i + 1);
      } else if userInput == "2" {
        shown, next, ended := RemoveChoice(db, inputs, i + 1);
      } else if userInput == "3" {
        shown := ListChoice(db);
        next, ended := i + 1, false;
      } else {
        shown, next, ended := SearchChoice(db, inputs, i + 1);
      }
      printed := printed + shown;
    }
  }

  method InteractiveFlow(db: Database, inputs: seq<string>)
    returns (out: seq<Line>, ending: Ending)
    requires db.Valid() && db.fileExists && !db.connected
    modifies db
    ensures db.Valid() && db.fileExists && !db.connected
    ensures SessionEnd(db.rows, out, ending) == InteractiveOutcome(old(db.rows), inputs)
  {
    ghost var target := InteractiveOutcome(db.rows, inputs);
    out := [Greeting];
    var userInput := "";
    var i := 0;
    while userInput != "0"
      invariant db.Valid() && db.fileExists && !db.connected
      invariant 0 <= i <= |inputs|
      invariant userInput != "0" ==> target == Then(out, Session(db.rows, inputs[i..]))
      invariant userInput == "0" ==> target == SessionEnd(db.rows, out + [Bye], Exited)
      decreases |inputs| - i
    {
      ghost var shown := out;
      ghost var before := db.rows;
      out := out + [Menu];
      if i == |inputs| {
        assert inputs[i..] == [];
        return out, InputEnded;
      }
      ghost var turn := MenuTurn(before, inputs[i..]);
      SessionStep(before, inputs[i..]);
      var printed, next, ended;
      userInput, printed, next, ended := LoopBody(db, inputs, i);
      out := out + printed;
      assert out == shown + ([Menu] + printed);
      if ended {
        return out, InputEnded;
      }
      if userInput != "0" {
        assert inputs[next..] == inputs[i..][turn.used..];
        ThenThen(shown, [Menu] + printed, Session(db.rows, inputs[next..]));
      }
      i := next;
    }
    out := out + [Bye];
    ending := Exited;
  }

  // ---------------------------------------------------------------------
  // The program: decorate the storage functions, then run one flow
  // ---------------------------------------------------------------------

  datatype Invocation =
    | Interactive(inputs: seq<string>)
    | Flags(action: Action, name: string, phone: string)

  /**
   * One run of phonebook.py on a directory where the database file is
   * `present` with `stored` rows: connector creates the file if it is
   * missing, then the chosen flow runs.
   */
  function ProgramOutcome(present: bool, stored: seq<Person>, invocation: Invocation): Outcome {
    var rows := if present then stored else [];
    match invocation
    case Interactive(inputs) =>
      var s := InteractiveOutcome(rows, inputs);
      Outcome(s.rows, s.out)
    case Flags(action, name, phone) =>
      ArgsOutcome(rows, action, name, phone)
  }

  method RunProgram(db: Database, invocation: Invocation) returns (out: seq<Line>)
    requires db.Valid() && !db.connected
    modifies db
    ensures db.Valid() && db.fileExists && !db.connected
    ensures Outcome(db.rows, out) == ProgramOutcome(old(db.fileExists), old(db.rows), invocation)
  {
    // connector runs once per decorated function when the module loads:
    // add_entry, remove_entry, list_all_entries, search_entries_by_name, check_persons
    db.Connector();
    db.Connector();
    db.Connector();
    db.Connector();
    db.Connector();
    match invocation {
      case Interactive(inputs) =>
        var ending;
        out, ending := InteractiveFlow(db, inputs);
      case Flags(action, name, phone) =>
        out := ArgsFlow(db, action, name, phone);
    }
  }

  // ---------------------------------------------------------------------
  // Properties of the flows
  // ---------------------------------------------------------------------

  /** Every well-formed record fits the declared column widths. */
  lemma WellFormedFitsColumns(rows: seq<Person>)
    requires WellFormed(rows)
    ensures forall k :: 0 <= k < |rows| ==>
      |rows[k].name| <= NameColumnWidth && |rows[k].phone| <= PhoneColumnWidth
  {
    forall k | 0 <= k < |rows|
      ensures |rows[k].name| <= NameColumnWidth && |rows[k].phone| <= PhoneColumnWidth
    {
      PhoneMaskFitsColumn(rows[k].phone);
    }
  }

  lemma AddedKeepsWellFormed(rows: seq<Person>, name: string, phone: string)
    requires WellFormed(rows)
    requires NameOk(name) && PhoneMask(phone)
    ensures WellFormed(Added(rows, name, phone))
  {
    if !HasPhone(rows, phone) {
      DistinctAfterInsert(rows, Person(name, phone));
      var r := rows + [Person(name, phone)];
      forall k | 0 <= k < |r| ensures NameOk(r[k].name) && PhoneMask(r[k].phone) {
        if k < |rows| {
          assert r[k] == rows[k];
        }
      }
    }
  }

  lemma WithoutKeepsWellFormed(rows: seq<Person>, phone: string)
    requires WellFormed(rows)
    ensures WellFormed(Without(rows, phone))
  {
    DistinctAfterWithout(rows, phone);
    var r := Without(rows, phone);
    forall k | 0 <= k < |r| ensures NameOk(r[k].name) && PhoneMask(r[k].phone) {
      WithoutMembers(rows, phone, r[k]);
    }
  }

  lemma ArgsAddRows(rows: seq<Person>, name: string, phone: string)
    ensures ArgsOutcome(rows, AddFlag, name, phone).rows ==
      if Validate(Some(name), Some(phone)).valid then Added(rows, name, phone) else rows
  {
  }

  lemma ArgsRemoveRows(rows: seq<Person>, name: string, phone: string)
    ensures ArgsOutcome(rows, RemoveFlag, name, phone).rows ==
      if Validate(Some(phone), None).valid then Removed(rows, phone) else rows
  {
  }

  /** Flag mode stores only validated records, and keeps phones unique. */
  lemma ArgsKeepsWellFormed(rows: seq<Person>, action: Action, name: string, phone: string)
    requires WellFormed(rows)
    ensures WellFormed(ArgsOutcome(rows, action, name, phone).rows)
  {
    match action {
      case AddFlag =>
        ArgsAddRows(rows, name, phone);
        if Validate(Some(name), Some(phone)).valid {
          AddedKeepsWellFormed(rows, name, phone);
        }
      case RemoveFlag =>
        ArgsRemoveRows(rows, name, phone);
        WithoutKeepsWellFormed(rows, phone);
      case _ =>
    }
  }

  /** Interactive mode stores only validated records, and keeps phones unique. */
  lemma {:induction false} SessionKeepsWellFormed(rows: seq<Person>, inputs: seq<string>)
    requires WellFormed(rows)
    ensures WellFormed(Session(rows, inputs).rows)
    decreases |inputs|
  {
    if inputs != [] {
      var t := MenuTurn(rows, inputs);
      var rest := inputs[1..];
      if inputs[0] == "1" && |rest| >= 2 && Validate(Some(rest[0]), Some(rest[1])).valid {
        AddedKeepsWellFormed(rows, rest[0], rest[1]);
      }
      if inputs[0] == "2" && |rest| >= 1 {
        WithoutKeepsWellFormed(rows, rest[0]);
      }
      assert WellFormed(t.rows);
      if t.Continue? {
        SessionKeepsWellFormed(t.rows, inputs[t.used..]);
      }
    }
  }

  /** Flag-mode list prints one line for each record and nothing else. */
  lemma ListAllShowsEveryRecord(rows: seq<Person>, name: string, phone: string, n: string, p: string)
    ensures var o := ArgsOutcome(rows, ListFlag, name, phone);
      o.rows == rows && |o.out| == |rows| &&
      (EntryLine(n, p) in o.out <==> Person(n, p) in rows)
  {
    var es := Entries(rows);
    EntriesMembers(rows, n, p);
    if EntryLine(n, p) in EntryLines(es) {
      var k :| 0 <= k < |EntryLines(es)| && EntryLines(es)[k] == EntryLine(n, p);
      assert es[k] == (n, p);
    }
    if (n, p) in es {
      var k :| 0 <= k < |es| && es[k] == (n, p);
      assert EntryLines(es)[k] == EntryLine(n, p);
    }
  }

  /** Flag-mode add: storage is reached only when both fields pass, and its
      answer decides the message. */
  lemma ArgsAddMessages(rows: seq<Person>, name: string, phone: string)
    ensures var o := ArgsOutcome(rows, AddFlag, name, phone);
      (o.out == [Success] <==> NameOk(name) && PhoneMask(phone) && !HasPhone(rows, phone)) &&
      (o.out == [AlreadyInPhoneBook] <==> NameOk(name) && PhoneMask(phone) && HasPhone(rows, phone)) &&
      (o.rows != rows <==> o.out == [Success]) &&
      (o.out == [Success] ==> o.rows == rows + [Person(name, phone)])
  {
    var v := Validate(Some(name), Some(phone));
    if !v.valid {
      assert Diag(v.diagnostics[0]) in DiagLines(v.diagnostics);
    }
    assert rows + [Person(name, phone)] != rows by {
      assert |rows + [Person(name, phone)]| != |rows|;
    }
  }

  /**
   * Flag-mode remove checks the phone with the name-length rule: storage is
   * reached exactly when the phone has 1 to 60 characters, whether or not
   * it matches the phone mask.
   */
  lemma ArgsRemoveMessages(rows: seq<Person>, name: string, phone: string)
    requires DistinctPhones(rows)
    ensures var o := ArgsOutcome(rows, RemoveFlag, name, phone);
      (o.out == [Diag(InvalidNameLength)] <==> !(1 <= |phone| <= 60)) &&
      (o.out == [Success] <==> 1 <= |phone| <= 60 && HasPhone(rows, phone)) &&
      (o.out == [CannotFindNumber] <==> 1 <= |phone| <= 60 && !HasPhone(rows, phone)) &&
      (o.out == [Success] ==> exists i :: 0 <= i < |rows| && rows[i].phone == phone &&
                                          o.rows == rows[..i] + rows[i + 1..]) &&
      (o.out != [Success] ==> o.rows == rows)
  {
    if 1 <= |phone| <= 60 && HasPhone(rows, phone) {
      var i :| 0 <= i < |rows| && rows[i].phone == phone;
      WithoutRemovesExactlyOne(rows, i);
    }
  }

  /** "John Doe" is no phone number, yet flag-mode remove lets it through
      to storage, where it is not found; the interactive remove rejects it. */
  lemma RemoveJohnDoe(rows: seq<Person>, name: string, rest: seq<string>)
    requires WellFormed(rows)
    ensures ArgsOutcome(rows, RemoveFlag, name, "John Doe") == Outcome(rows, [CannotFindNumber])
    ensures Session(rows, ["2", "John Doe"] + rest) ==
      Then([Menu, Separator, Diag(BadNumber)], Session(rows, rest))
  {
    PhoneBoundaries();
    assert NameOk("John Doe");
    assert !HasPhone(rows, "John Doe") by {
      forall k | 0 <= k < |rows| ensures rows[k].phone != "John Doe" {
        assert PhoneMask(rows[k].phone);
      }
    }
    InvalidRemoveSkipsStorage(rows, "John Doe", rest);
  }

  /** Flag-mode search: storage is reached only for a name of 1 to 60
      characters, and then prints exactly the matching entries. */
  lemma ArgsSearchMessages(rows: seq<Person>, name: string, phone: string)
    ensures var o := ArgsOutcome(rows, SearchFlag, name, phone);
      o.rows == rows &&
      (!NameOk(name) ==> o.out == [Diag(InvalidNameLength)]) &&
      (NameOk(name) ==> forall n, p :: EntryLine(n, p) in o.out <==>
                          Person(n, p) in rows && exists i: nat :: OccursAt(name, n, i))
  {
    if NameOk(name) {
      var es := Entries(Matching(rows, name));
      forall n, p ensures EntryLine(n, p) in EntryLines(es) <==>
                          Person(n, p) in rows && exists i: nat :: OccursAt(name, n, i)
      {
        SearchResultsExact(rows, name, n, p);
        if EntryLine(n, p) in EntryLines(es) {
          var k :| 0 <= k < |EntryLines(es)| && EntryLines(es)[k] == EntryLine(n, p);
          assert es[k] == (n, p);
        }
        if (n, p) in es {
          var k :| 0 <= k < |es| && es[k] == (n, p);
          assert EntryLines(es)[k] == EntryLine(n, p);
        }
      }
    }
  }

  /** A turn that goes round again: the session is what it printed followed
      by the session on the lines after the ones it read. */
  lemma SessionAfterTurn(rows: seq<Person>, inputs: seq<string>, used: nat, rest: seq<string>,
                         after: seq<Person>, printed: seq<Line>)
    requires inputs != [] && used <= |inputs| && inputs[used..] == rest
    requires MenuTurn(rows, inputs) == Continue(after, printed, used)
    ensures Session(rows, inputs) == Then([Menu] + printed, Session(after, rest))
  {
  }

  /** A turn that ends the loop ends the session. */
  lemma SessionAfterStop(rows: seq<Person>, inputs: seq<string>,
                         after: seq<Person>, printed: seq<Line>, ending: Ending)
    requires inputs != []
    requires MenuTurn(rows, inputs) == Stop(after, printed, ending)
    ensures Session(rows, inputs) == SessionEnd(after, [Menu] + printed, ending)
  {
  }

  lemma WrongChoiceTurn(rows: seq<Person>, inputs: seq<string>)
    requires inputs != [] && !IsMenuChoice(inputs[0])
    ensures MenuTurn(rows, inputs) == Continue(rows, [Separator, WrongInput], 1)
  {
  }

  /** A menu choice other than '0' to '4' changes nothing and shows the menu again. */
  lemma WrongChoiceReprompts(rows: seq<Person>, choice: string, rest: seq<string>)
    requires !IsMenuChoice(choice)
    ensures Session(rows, [choice] + rest) ==
      Then([Menu, Separator, WrongInput], Session(rows, rest))
  {
    var inputs := [choice] + rest;
    assert inputs[1..] == rest;
    WrongChoiceTurn(rows, inputs);
    SessionAfterTurn(rows, inputs, 1, rest, rows, [Separator, WrongInput]);
  }

  /** The choice '0' ends the loop at once, reading nothing more. */
  lemma ZeroExits(rows: seq<Person>, rest: seq<string>)
    ensures Session(rows, ["0"] + rest) ==
      SessionEnd(rows, [Menu, Separator, Separator, Bye], Exited)
  {
  }

  lemma AddTurnOf(rows: seq<Person>, name: string, phone: string, rest: seq<string>)
    ensures var v := Validate(Some(name), Some(phone));
      MenuTurn(rows, ["1", name, phone] + rest) ==
        if v.valid then Continue(Added(rows, name, phone), [Separator, Separator], 3)
        else Continue(rows, [Separator] + DiagLines(v.diagnostics), 3)
  {
    var inputs := ["1", name, phone] + rest;
    assert inputs[1..][0] == name && inputs[1..][1] == phone;
  }

  lemma RemoveTurnOf(rows: seq<Person>, phone: string, rest: seq<string>)
    ensures var v := Validate(None, Some(phone));
      MenuTurn(rows, ["2", phone] + rest) ==
        if v.valid then Continue(Removed(rows, phone), [Separator, Separator], 2)
        else Continue(rows, [Separator] + DiagLines(v.diagnostics), 2)
  {
    var inputs := ["2", phone] + rest;
    assert inputs[1..][0] == phone;
  }

  /** An add whose fields fail validation prints the diagnostics and leaves
      the table alone; the loop carries on. */
  lemma InvalidAddSkipsStorage(rows: seq<Person>, name: string, phone: string, rest: seq<string>)
    requires !Validate(Some(name), Some(phone)).valid
    ensures Session(rows, ["1", name, phone] + rest) ==
      Then([Menu, Separator] + DiagLines(Validate(Some(name), Some(phone)).diagnostics),
           Session(rows, rest))
  {
    var inputs := ["1", name, phone] + rest;
    var printed := [Separator] + DiagLines(Validate(Some(name), Some(phone)).diagnostics);
    AddTurnOf(rows, name, phone, rest);
    assert inputs[3..] == rest;
    SessionAfterTurn(rows, inputs, 3, rest, rows, printed);
    assert [Menu] + printed == [Menu, Separator] + DiagLines(Validate(Some(name), Some(phone)).diagnostics);
  }

  /** A remove whose phone fails the mask prints the diagnostic and leaves
      the table alone; the loop carries on. */
  lemma InvalidRemoveSkipsStorage(rows: seq<Person>, phone: string, rest: seq<string>)
    requires !PhoneMask(phone)
    ensures Session(rows, ["2", phone] + rest) ==
      Then([Menu, Separator, Diag(BadNumber)], Session(rows, rest))
  {
    var inputs := ["2", phone] + rest;
    BadNumberOnly(phone);
    RemoveTurnOf(rows, phone, rest);
    assert inputs[2..] == rest;
    SessionAfterTurn(rows, inputs, 2, rest, rows, [Separator, Diag(BadNumber)]);
  }

  lemma SearchTurnOf(rows: seq<Person>, name: string, rest: seq<string>)
    ensures var v := Validate(Some(name), None);
      MenuTurn(rows, ["4", name] + rest) ==
        if v.valid then Continue(rows, [Separator] + EntryLines(Entries(Matching(rows, name))) + [Separator], 2)
        else Continue(rows, [Separator] + DiagLines(v.diagnostics), 2)
  {
    var inputs := ["4", name] + rest;
    assert inputs[1..][0] == name;
  }

  /** validate(name=n) for a bad name prints only the name message. */
  lemma NameDiagnosticOnly(name: string)
    requires !NameOk(name)
    ensures Validate(Some(name), None).diagnostics == [InvalidNameLength]
  {
    var v := Validate(Some(name), None);
    assert BadNumber !in v.diagnostics;
  }

  lemma NameLengthOnly(name: string)
    requires !NameOk(name)
    ensures [Separator] + DiagLines(Validate(Some(name), None).diagnostics) ==
      [Separator, Diag(InvalidNameLength)]
  {
    NameDiagnosticOnly(name);
    assert DiagLines([InvalidNameLength]) == [Diag(InvalidNameLength)];
  }

  lemma InvalidSearchTurn(rows: seq<Person>, name: string, rest: seq<string>)
    requires !NameOk(name)
    ensures MenuTurn(rows, ["4", name] + rest) ==
      Continue(rows, [Separator, Diag(InvalidNameLength)], 2)
  {
    SearchTurnOf(rows, name, rest);
    NameLengthOnly(name);
  }

  /** A search whose name fails validation prints the name diagnostic, skips
      storage and the closing separator; the loop carries on. */
  lemma InvalidSearchSkipsStorage(rows: seq<Person>, name: string, rest: seq<string>)
    requires !NameOk(name)
    ensures Session(rows, ["4", name] + rest) ==
      Then([Menu, Separator, Diag(InvalidNameLength)], Session(rows, rest))
  {
    var inputs := ["4", name] + rest;
    InvalidSearchTurn(rows, name, rest);
    assert inputs[2..] == rest;
    SessionAfterTurn(rows, inputs, 2, rest, rows, [Separator, Diag(InvalidNameLength)]);
  }

  /** validate(phone=p) for a phone that fails the mask prints only the phone message. */
  lemma PhoneDiagnosticOnly(phone: string)
    requires !PhoneMask(phone)
    ensures Validate(None, Some(phone)).diagnostics == [BadNumber]
  {
    var v := Validate(None, Some(phone));
    assert InvalidNameLength !in v.diagnostics;
  }

  lemma BadNumberOnly(phone: string)
    requires !PhoneMask(phone)
    ensures [Separator] + DiagLines(Validate(None, Some(phone)).diagnostics) == [Separator, Diag(BadNumber)]
  {
    PhoneDiagnosticOnly(phone);
    assert DiagLines([BadNumber]) == [Diag(BadNumber)];
  }

  /** A valid add in interactive mode adds the record when the phone is new
      and prints nothing about the outcome either way. */
  lemma ValidAddIsSilent(rows: seq<Person>, name: string, phone: string, rest: seq<string>)
    requires NameOk(name) && PhoneMask(phone)
    ensures Session(rows, ["1", name, phone] + rest) ==
      Then([Menu, Separator, Separator], Session(Added(rows, name, phone), rest))
  {
    var inputs := ["1", name, phone] + rest;
    AddTurnOf(rows, name, phone, rest);
    assert inputs[3..] == rest;
    SessionAfterTurn(rows, inputs, 3, rest, Added(rows, name, phone), [Separator, Separator]);
  }

  /** A turn that finished reading its lines is not changed by lines after them. */
  lemma MenuTurnIgnoresLaterLines(rows: seq<Person>, inputs: seq<string>, more: seq<string>)
    requires inputs != []
    requires MenuTurn(rows, inputs).Continue?
    ensures MenuTurn(rows, inputs + more) == MenuTurn(rows, inputs)
  {
    var all := inputs + more;
    assert all[0] == inputs[0];
    if |inputs| >= 3 {
      assert all[1..][0] == inputs[1..][0] && all[1..][1] == inputs[1..][1];
    } else if |inputs| >= 2 {
      assert all[1..][0] == inputs[1..][0];
    }
  }

  lemma ExitTurnIgnoresLaterLines(rows: seq<Person>, inputs: seq<string>, more: seq<string>)
    requires inputs != [] && MenuTurn(rows, inputs).Stop?
    requires Session(rows, inputs).ending == Exited
    ensures Session(rows, inputs + more) == Session(rows, inputs)
  {
    var t := MenuTurn(rows, inputs);
    SessionAfterStop(rows, inputs, t.rows, t.out, t.ending);
    var all := inputs + more;
    assert all[0] == "0";
    SessionAfterStop(rows, all, t.rows, t.out, t.ending);
  }

  lemma SliceOfAppend(a: seq<string>, b: seq<string>, k: nat)
    requires k <= |a|
    ensures (a + b)[k..] == a[k..] + b
  {
  }

  lemma ContinueTurnIgnoresLaterLines(rows: seq<Person>, inputs: seq<string>, more: seq<string>)
    requires inputs != [] && MenuTurn(rows, inputs).Continue?
    ensures var t := MenuTurn(rows, inputs);
      Session(rows, inputs) == Then([Menu] + t.out, Session(t.rows, inputs[t.used..])) &&
      Session(rows, inputs + more) == Then([Menu] + t.out, Session(t.rows, inputs[t.used..] + more))
  {
    var t := MenuTurn(rows, inputs);
    var rest := inputs[t.used..];
    SessionAfterTurn(rows, inputs, t.used, rest, t.rows, t.out);
    MenuTurnIgnoresLaterLines(rows, inputs, more);
    SliceOfAppend(inputs, more, t.used);
    SessionAfterTurn(rows, inputs + more, t.used, rest + more, t.rows, t.out);
  }

  /** Once the loop has left through '0', further input lines are never read. */
  lemma {:induction false} StopsAfterZero(rows: seq<Person>, inputs: seq<string>, more: seq<string>)
    requires Session(rows, inputs).ending == Exited
    ensures Session(rows, inputs + more) == Session(rows, inputs)
    decreases |inputs|
  {
    assert inputs != [];
    var t := MenuTurn(rows, inputs);
    if t.Stop? {
      ExitTurnIgnoresLaterLines(rows, inputs, more);
    } else {
      ContinueTurnIgnoresLaterLines(rows, inputs, more);
      StopsAfterZero(t.rows, inputs[t.used..], more);
    }
  }

  /** A turn that goes on depends only on the lines it read. */
  lemma MenuTurnNeedsOnlyUsed(rows: seq<Person>, inputs: seq<string>)
    requires inputs != [] && MenuTurn(rows, inputs).Continue?
    ensures var t := MenuTurn(rows, inputs);
      inputs[..t.used] != [] && MenuTurn(rows, inputs[..t.used]) == t
  {
    var t := MenuTurn(rows, inputs);
    var p := inputs[..t.used];
    assert p[0] == inputs[0];
    if |p| >= 3 {
      assert p[1..][0] == inputs[1..][0] && p[1..][1] == inputs[1..][1];
    } else if |p| >= 2 {
      assert p[1..][0] == inputs[1..][0];
    }
  }

  /** The session on the lines up to the exit choice, for a turn that goes on. */
  lemma ContinueTurnPrefix(rows: seq<Person>, inputs: seq<string>, tail: seq<string>)
    requires inputs != [] && MenuTurn(rows, inputs).Continue?
    ensures var t := MenuTurn(rows, inputs);
      Session(rows, inputs[..t.used] + tail) == Then([Menu] + t.out, Session(t.rows, tail))
  {
    var t := MenuTurn(rows, inputs);
    var p := inputs[..t.used];
    MenuTurnNeedsOnlyUsed(rows, inputs);
    ContinueTurnIgnoresLaterLines(rows, p, tail);
    assert p[t.used..] + tail == tail;
  }

  /** A turn that ends the loop through the exit choice read only the line "0". */
  lemma ExitAtFirstLine(rows: seq<Person>, inputs: seq<string>)
    requires inputs != [] && MenuTurn(rows, inputs).Stop?
    requires Session(rows, inputs).ending == Exited
    ensures inputs[0] == "0" && Session(rows, inputs[..1]) == Session(rows, inputs)
    ensures Session(rows, inputs[..0]).ending == InputEnded
  {
    assert inputs[..0] == [];
    var first := inputs[..1];
    assert first[0] == "0" && first + inputs[1..] == inputs;
    ExitTurnIgnoresLaterLines(rows, first, inputs[1..]);
  }

  /** A turn that goes on leaves the ending to the session after it. */
  lemma ContinueKeepsEnding(rows: seq<Person>, inputs: seq<string>)
    requires inputs != [] && MenuTurn(rows, inputs).Continue?
    ensures var t := MenuTurn(rows, inputs);
      Session(t.rows, inputs[t.used..]).ending == Session(rows, inputs).ending
  {
    var t := MenuTurn(rows, inputs);
    SessionAfterTurn(rows, inputs, t.used, inputs[t.used..], t.rows, t.out);
  }

  lemma PrefixSplit(inputs: seq<string>, used: nat, m: nat)
    requires used + m <= |inputs|
    ensures inputs[..used + m] == inputs[..used] + inputs[used..][..m]
  {
  }

  /** The session on the lines of a turn that goes on and the m lines after it. */
  lemma PrefixAfterTurn(rows: seq<Person>, inputs: seq<string>, m: nat)
    requires inputs != [] && MenuTurn(rows, inputs).Continue?
    requires m <= |inputs[MenuTurn(rows, inputs).used..]|
    ensures var t := MenuTurn(rows, inputs);
      Session(rows, inputs[..t.used + m]) == Then([Menu] + t.out, Session(t.rows, inputs[t.used..][..m]))
  {
    var t := MenuTurn(rows, inputs);
    PrefixSplit(inputs, t.used, m);
    ContinueTurnPrefix(rows, inputs, inputs[t.used..][..m]);
  }

  /** The exit line j after a turn that goes on is the exit line used + j. */
  lemma ExitLineAfterTurn(rows: seq<Person>, inputs: seq<string>, j: nat)
    requires inputs != [] && MenuTurn(rows, inputs).Continue?
    requires var t := MenuTurn(rows, inputs); var rest := inputs[t.used..];
      j < |rest| && rest[j] == "0" &&
      Session(t.rows, rest[..j]).ending == InputEnded &&
      Session(t.rows, rest[..j + 1]) == Session(t.rows, rest)
    ensures var t := MenuTurn(rows, inputs); var k := t.used + j;
      k < |inputs| && inputs[k] == "0" &&
      Session(rows, inputs[..k]).ending == InputEnded &&
      Session(rows, inputs[..k + 1]) == Session(rows, inputs)
  {
    var t := MenuTurn(rows, inputs);
    var rest := inputs[t.used..];
    PrefixAfterTurn(rows, inputs, j);
    PrefixAfterTurn(rows, inputs, j + 1);
    SessionAfterTurn(rows, inputs, t.used, rest, t.rows, t.out);
    assert inputs[t.used + j] == rest[j];
  }

  /**
   * The loop leaves through '0' only by reading "0" as a menu choice: some
   * line k is "0", the lines before it do not end the loop, and the session
   * on the lines up to k is the whole session.
   */
  lemma {:induction false} ExitNeedsZero(rows: seq<Person>, inputs: seq<string>)
    requires Session(rows, inputs).ending == Exited
    ensures exists k ::
      (0 <= k < |inputs| && inputs[k] == "0" &&
       Session(rows, inputs[..k]).ending == InputEnded &&
       Session(rows, inputs[..k + 1]) == Session(rows, inputs))
    decreases |inputs|
  {
    assert inputs != [];
    var t := MenuTurn(rows, inputs);
    if t.Stop? {
      ExitAtFirstLine(rows, inputs);
    } else {
      var rest := inputs[t.used..];
      ContinueKeepsEnding(rows, inputs);
      ExitNeedsZero(t.rows, rest);
      var j :| 0 <= j < |rest| && rest[j] == "0" &&
        Session(t.rows, rest[..j]).ending == InputEnded &&
        Session(t.rows, rest[..j + 1]) == Session(t.rows, rest);
      ExitLineAfterTurn(rows, inputs, j);
      var k := t.used + j;
      assert 0 <= k < |inputs| && inputs[k] == "0";
    }
  }
}
