// The storage layer of the phone book: the single Person table, with its
// unique phone column, and the lazy creation of the database file.

module DbOps {

  /** One row of the Person table. */
  datatype Person = Person(name: string, phone: string)

  /** Declared widths of the two CharField columns. */
  const NameColumnWidth := 60
  const PhoneColumnWidth := 12

  /** The errors the ORM raises that the program catches. */
  datatype DbError = IntegrityError | DoesNotExist

  datatype Result<T> = Ok(value: T) | Err(error: DbError)

  predicate HasPhone(rows: seq<Person>, phone: string) {
    exists i :: 0 <= i < |rows| && rows[i].phone == phone
  }

  /** The UNIQUE constraint on the phone column. */
  predicate DistinctPhones(rows: seq<Person>) {
    forall i, j :: 0 <= i < j < |rows| ==> rows[i].phone != rows[j].phone
  }

  /** The table with every row whose phone is `phone` deleted. */
  function Without(rows: seq<Person>, phone: string): (r: seq<Person>)
    ensures |r| <= |rows|
  {
    if rows == [] then []
    else if rows[0].phone == phone then Without(rows[1..], phone)
    else [rows[0]] + Without(rows[1..], phone)
  }

  /** A row survives the delete exactly when its phone is another one. */
  lemma {:induction false} WithoutMembers(rows: seq<Person>, phone: string, x: Person)
    ensures x in Without(rows, phone) <==> x in rows && x.phone != phone
  {
    if rows != [] {
      WithoutMembers(rows[1..], phone, x);
      assert x in rows <==> x == rows[0] || x in rows[1..];
    }
  }

  lemma {:induction false} WithoutAbsent(rows: seq<Person>, phone: string)
    requires !HasPhone(rows, phone)
    ensures Without(rows, phone) == rows
  {
    if rows != [] {
      WithoutAbsent(rows[1..], phone);
    }
  }

  lemma DistinctTail(rows: seq<Person>)
    requires DistinctPhones(rows) && rows != []
    ensures DistinctPhones(rows[1..])
    ensures !HasPhone(rows[1..], rows[0].phone)
  {
    var tail := rows[1..];
    forall a, b | 0 <= a < b < |tail| ensures tail[a].phone != tail[b].phone {
      assert tail[a] == rows[a + 1] && tail[b] == rows[b + 1];
    }
    forall k | 0 <= k < |tail| ensures tail[k].phone != rows[0].phone {
      assert tail[k] == rows[k + 1];
    }
  }

  /** With unique phones, deleting by phone removes exactly the one row at
      index i and leaves the others, in order. */
  lemma {:induction false} WithoutRemovesExactlyOne(rows: seq<Person>, i: nat)
    requires DistinctPhones(rows)
    requires i < |rows|
    ensures Without(rows, rows[i].phone) == rows[..i] + rows[i + 1..]
  {
    DistinctTail(rows);
    var tail := rows[1..];
    if i == 0 {
      WithoutAbsent(tail, rows[0].phone);
    } else {
      var phone := rows[i].phone;
      assert rows[0].phone != phone;
      assert tail[i - 1] == rows[i];
      WithoutRemovesExactlyOne(tail, i - 1);
      calc {
        Without(rows, phone);
        [rows[0]] + Without(tail, phone);
        [rows[0]] + (tail[..i - 1] + tail[i..]);
        { assert tail[..i - 1] == rows[1..i] && tail[i..] == rows[i + 1..]; }
        [rows[0]] + (rows[1..i] + rows[i + 1..]);
        { assert rows[..i] == [rows[0]] + rows[1..i]; }
        rows[..i] + rows[i + 1..];
      }
    }
  }

  lemma {:induction false} WithoutAppend(rows: seq<Person>, extra: seq<Person>, phone: string)
    ensures Without(rows + extra, phone) == Without(rows, phone) + Without(extra, phone)
  {
    if rows != [] {
      assert (rows + extra)[1..] == rows[1..] + extra;
      WithoutAppend(rows[1..], extra, phone);
    } else {
      assert rows + extra == extra;
    }
  }

  /** Inserting a fresh phone and deleting it again gives back the table. */
  lemma AddThenRemove(rows: seq<Person>, person: Person)
    requires !HasPhone(rows, person.phone)
    ensures Without(rows + [person], person.phone) == rows
  {
    WithoutAppend(rows, [person], person.phone);
    WithoutAbsent(rows, person.phone);
    assert [person][1..] == [];
  }

  /** The UNIQUE constraint holds after inserting a phone not yet present. */
  lemma DistinctAfterInsert(rows: seq<Person>, person: Person)
    requires DistinctPhones(rows)
    requires !HasPhone(rows, person.phone)
    ensures DistinctPhones(rows + [person])
  {
    var r := rows + [person];
    forall i, j | 0 <= i < j < |r| ensures r[i].phone != r[j].phone {
      if j == |rows| {
        assert r[i] == rows[i];
      } else {
        assert r[i] == rows[i] && r[j] == rows[j];
      }
    }
  }

  /** The UNIQUE constraint holds after a delete by phone. */
  lemma {:induction false} DistinctAfterWithout(rows: seq<Person>, phone: string)
    requires DistinctPhones(rows)
    ensures DistinctPhones(Without(rows, phone))
  {
    if rows != [] {
      var tail := rows[1..];
      DistinctTail(rows);
      DistinctAfterWithout(tail, phone);
      if rows[0].phone != phone {
        var w := Without(tail, phone);
        var r := [rows[0]] + w;
        forall i, j | 0 <= i < j < |r| ensures r[i].phone != r[j].phone {
          if i == 0 {
            assert r[j] in w;
            WithoutMembers(tail, phone, r[j]);
            var k :| 0 <= k < |tail| && tail[k] == r[j];
            assert rows[k + 1] == r[j];
          } else {
            assert r[i] == w[i - 1] && r[j] == w[j - 1];
          }
        }
      }
    }
  }

  /**
   * The database file with its Person table. `fileExists` stands for the
   * file phonebook.db being present in the working directory; `connected`
   * for the one connection object of the ORM being open.
   */
  class Database {
    var fileExists: bool
    var connected: bool
    var rows: seq<Person>

    /** The table honours its UNIQUE column, and no file means no rows. */
    ghost predicate Valid()
      reads this
    {
      DistinctPhones(rows) && (!fileExists ==> rows == [])
    }

    /** The state found on disk when a process starts. */
    constructor (present: bool, stored: seq<Person>)
      requires DistinctPhones(stored)
      requires present || stored == []
      ensures Valid() && !connected
      ensures fileExists == present && rows == stored
    {
      fileExists := present;
      connected := false;
      rows := stored;
    }

    /** Opening the connection; the ORM refuses to open it twice. */
    method Connect()
      requires !connected
      modifies this`connected
      ensures connected
    {
      connected := true;
    }

    method Close()
      modifies this`connected
      ensures !connected
    {
      connected := false;
    }

    /** init_db: delete the file if present, then create an empty table. */
    method InitDb()
      requires Valid() && !connected
      modifies this
      ensures Valid() && !connected
      ensures fileExists && rows == []
    {
      if fileExists {
        fileExists := false;
        rows := [];
      }
      Connect();
      fileExists := true;
      rows := [];
      Close();
    }

    /**
     * The check connector makes when it decorates a function: create the
     * database only when the file is missing, otherwise leave it alone.
     */
    method Connector()
      requires Valid() && !connected
      modifies this
      ensures Valid() && !connected && fileExists
      ensures rows == if old(fileExists) then old(rows) else []
    {
      if !fileExists {
        InitDb();
      }
    }

    /** `Person.get(Person.phone == phone)`: the index of the row, or DoesNotExist. */
    method Get(phone: string) returns (r: Result<nat>)
      requires connected
      ensures r.Ok? ==> r.value < |rows| && rows[r.value].phone == phone
      ensures r.Err? <==> !HasPhone(rows, phone)
      ensures r.Err? ==> r.error == DoesNotExist
    {
      var i := 0;
      while i < |rows|
        invariant 0 <= i <= |rows|
        invariant forall k :: 0 <= k < i ==> rows[k].phone != phone
      {
        if rows[i].phone == phone {
          return Ok(i);
        }
        i := i + 1;
      }
      return Err(DoesNotExist);
    }

    /** `Person(...).save(force_insert=True)`: one row inserted, or IntegrityError
        when the phone is already in the table. */
    method Insert(person: Person) returns (r: Result<nat>)
      requires Valid() && connected && fileExists
      modifies this`rows
      ensures Valid()
      ensures r.Ok? <==> !HasPhone(old(rows), person.phone)
      ensures r.Ok? ==> r.value == 1 && rows == old(rows) + [person]
      ensures r.Err? ==> r.error == IntegrityError && rows == old(rows)
    {
      var existing := Get(person.phone);
      if existing.Ok? {
        r := Err(IntegrityError);
      } else {
        DistinctAfterInsert(rows, person);
        rows := rows + [person];
        r := Ok(1);
      }
    }

    /** `delete_instance()` on the row at index i: the number of rows deleted. */
    method DeleteInstance(i: nat) returns (n: nat)
      requires Valid() && connected
      requires i < |rows|
      modifies this`rows
      ensures Valid()
      ensures n == 1
      ensures rows == Without(old(rows), old(rows)[i].phone)
    {
      WithoutRemovesExactlyOne(rows, i);
      DistinctAfterWithout(rows, rows[i].phone);
      rows := rows[..i] + rows[i + 1..];
      n := 1;
    }
  }
}
