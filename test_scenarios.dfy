// The assertions of the repository's end-to-end tests, stated over whole
// runs of the program. Every test run starts a fresh process on a database
// file that already exists (the fixture has loaded its contacts).

module Scenarios {
  import opened DbOps
  import opened Validation
  import opened Storage
  import opened Flows

  /** One flag-mode run on the existing database file. */
  function Run(rows: seq<Person>, action: Action, name: string, phone: string): Outcome {
    ProgramOutcome(true, rows, Flags(action, name, phone))
  }

  lemma PhoneIsNameLength(phone: string)
    requires PhoneMask(phone)
    ensures NameOk(phone)
  {
    PhoneMaskFitsColumn(phone);
    assert phone != [];
  }

  /**
   * test_add_and_remove_record: a valid contact with a new phone is added
   * ("Success!") and listed, then removed by phone ("Success!") and no
   * longer listed; the table is back to what it was.
   */
  lemma AddAndRemoveRecord(rows: seq<Person>, name: string, phone: string)
    requires NameOk(name) && PhoneMask(phone) && !HasPhone(rows, phone)
    ensures var added := Run(rows, AddFlag, name, phone);
      added.out == [Success] &&
      EntryLine(name, phone) in Run(added.rows, ListFlag, "", "").out &&
      var removed := Run(added.rows, RemoveFlag, "", phone);
      removed.out == [Success] && removed.rows == rows &&
      EntryLine(name, phone) !in Run(removed.rows, ListFlag, "", "").out
  {
    var added := rows + [Person(name, phone)];
    assert Person(name, phone) in added;
    ListAllShowsEveryRecord(added, "", "", name, phone);
    PhoneIsNameLength(phone);
    assert HasPhone(added, phone) by {
      assert added[|rows|].phone == phone;
    }
    AddThenRemove(rows, Person(name, phone));
    ListAllShowsEveryRecord(rows, "", "", name, phone);
    assert forall k :: 0 <= k < |rows| ==> rows[k] != Person(name, phone);
  }

  /** An add that fails validation prints its diagnostics and changes nothing. */
  lemma RejectedAdd(rows: seq<Person>, name: string, phone: string, lines: seq<Line>)
    requires !Validate(Some(name), Some(phone)).valid
    requires DiagLines(Validate(Some(name), Some(phone)).diagnostics) == lines
    ensures Run(rows, AddFlag, name, phone) == Outcome(rows, lines)
  {
  }

  /** The rejected adds of test_bad_inputs where both fields fail. */
  lemma BothFieldsRejected(rows: seq<Person>)
    ensures Run(rows, AddFlag, "", "") ==
      Outcome(rows, [Diag(InvalidNameLength), Diag(BadNumber)])
    ensures Run(rows, AddFlag, "", "+123456789012") ==
      Outcome(rows, [Diag(InvalidNameLength), Diag(BadNumber)])
    ensures Run(rows, AddFlag, "", "John Doe") ==
      Outcome(rows, [Diag(InvalidNameLength), Diag(BadNumber)])
  {
    NameBoundaries();
    PhoneBoundaries();
    var both := [Diag(InvalidNameLength), Diag(BadNumber)];
    assert DiagLines([InvalidNameLength, BadNumber]) == both;
    RejectedAdd(rows, "", "", both);
    RejectedAdd(rows, "", "+123456789012", both);
    RejectedAdd(rows, "", "John Doe", both);
  }

  /** The rejected adds of test_bad_inputs where one field fails. */
  lemma OneFieldRejected(rows: seq<Person>)
    ensures Run(rows, AddFlag, "", "+12345678901") ==
      Outcome(rows, [Diag(InvalidNameLength)])
    ensures Run(rows, AddFlag, Repeat("John Doe", 30), "+12345678901") ==
      Outcome(rows, [Diag(InvalidNameLength)])
    ensures Run(rows, AddFlag, "Mister X", "") ==
      Outcome(rows, [Diag(BadNumber)])
  {
    NameBoundaries();
    PhoneBoundaries();
    assert DiagLines([InvalidNameLength]) == [Diag(InvalidNameLength)];
    assert DiagLines([BadNumber]) == [Diag(BadNumber)];
    RejectedAdd(rows, "", "+12345678901", [Diag(InvalidNameLength)]);
    RejectedAdd(rows, Repeat("John Doe", 30), "+12345678901", [Diag(InvalidNameLength)]);
    RejectedAdd(rows, "Mister X", "", [Diag(BadNumber)]);
  }

  /** test_bad_inputs: each rejected add prints the expected diagnostics and
      leaves the table alone. */
  lemma BadInputs(rows: seq<Person>)
    ensures Run(rows, AddFlag, "", "") ==
      Outcome(rows, [Diag(InvalidNameLength), Diag(BadNumber)])
    ensures Run(rows, AddFlag, "", "+12345678901") ==
      Outcome(rows, [Diag(InvalidNameLength)])
    ensures Run(rows, AddFlag, Repeat("John Doe", 30), "+12345678901") ==
      Outcome(rows, [Diag(InvalidNameLength)])
    ensures Run(rows, AddFlag, "Mister X", "") ==
      Outcome(rows, [Diag(BadNumber)])
    ensures Run(rows, AddFlag, "", "+123456789012") ==
      Outcome(rows, [Diag(InvalidNameLength), Diag(BadNumber)])
    ensures Run(rows, AddFlag, "", "John Doe") ==
      Outcome(rows, [Diag(InvalidNameLength), Diag(BadNumber)])
  {
    BothFieldsRejected(rows);
    OneFieldRejected(rows);
  }

  /**
   * test_amendment_scenario: add A/P1, remove P1, add A/P2, remove P2,
   * add B/P2. Afterwards (B, P2) is listed and no record carries the name
   * A or the phone P1; the table is the old one plus (B, P2).
   */
  lemma AmendmentScenario(rows: seq<Person>, nameA: string, nameB: string,
                          phone1: string, phone2: string)
    requires NameOk(nameA) && NameOk(nameB) && PhoneMask(phone1) && PhoneMask(phone2)
    requires phone1 != phone2
    requires !HasPhone(rows, phone1) && !HasPhone(rows, phone2)
    requires forall k :: 0 <= k < |rows| ==> rows[k].name != nameA
    requires nameA != nameB
    ensures var r1 := Run(rows, AddFlag, nameA, phone1).rows;
      var r2 := Run(r1, RemoveFlag, "", phone1).rows;
      var r3 := Run(r2, AddFlag, nameA, phone2).rows;
      var r4 := Run(r3, RemoveFlag, "", phone2).rows;
      var r5 := Run(r4, AddFlag, nameB, phone2).rows;
      r5 == rows + [Person(nameB, phone2)] &&
      EntryLine(nameB, phone2) in Run(r5, ListFlag, "", "").out &&
      forall k :: 0 <= k < |r5| ==> r5[k].name != nameA && r5[k].phone != phone1
  {
    PhoneIsNameLength(phone1);
    PhoneIsNameLength(phone2);
    var r1 := rows + [Person(nameA, phone1)];
    assert r1[|rows|].phone == phone1;
    AddThenRemove(rows, Person(nameA, phone1));
    var r3 := rows + [Person(nameA, phone2)];
    assert r3[|rows|].phone == phone2;
    AddThenRemove(rows, Person(nameA, phone2));
    var r5 := rows + [Person(nameB, phone2)];
    ListAllShowsEveryRecord(r5, "", "", nameB, phone2);
    assert r5[|rows|] == Person(nameB, phone2);
    forall k | 0 <= k < |r5| ensures r5[k].name != nameA && r5[k].phone != phone1 {
      if k < |rows| {
        assert r5[k] == rows[k];
      }
    }
  }

  /** The amendment scenario with the test's own names and numbers. */
  lemma BillyButcher(rows: seq<Person>)
    requires !HasPhone(rows, "+777666") && !HasPhone(rows, "+777667")
    requires forall k :: 0 <= k < |rows| ==> rows[k].name != "Billy Butcher"
    ensures var r1 := Run(rows, AddFlag, "Billy Butcher", "+777666").rows;
      var r2 := Run(r1, RemoveFlag, "", "+777666").rows;
      var r3 := Run(r2, AddFlag, "Billy Butcher", "+777667").rows;
      var r4 := Run(r3, RemoveFlag, "", "+777667").rows;
      var r5 := Run(r4, AddFlag, "Billy Kitty", "+777667").rows;
      r5 == rows + [Person("Billy Kitty", "+777667")]
  {
    assert "+777666"[1..] == "777666" && "+777667"[1..] == "777667";
    assert "+777666" != "+777667" by {
      assert "+777666"[6] != "+777667"[6];
    }
    assert "Billy Butcher" != "Billy Kitty" by {
      assert |"Billy Butcher"| != |"Billy Kitty"|;
    }
    AmendmentScenario(rows, "Billy Butcher", "Billy Kitty", "+777666", "+777667");
  }

  /** The test teardown: --reset empties the table whatever it held, and the
      next run finds the file and keeps it empty. */
  lemma ResetEmpties(present: bool, stored: seq<Person>, name: string, phone: string)
    ensures ProgramOutcome(present, stored, Flags(ResetFlag, name, phone)) == Outcome([], [])
    ensures Run([], ListFlag, name, phone) == Outcome([], [])
  {
  }
}
