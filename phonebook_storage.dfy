// The storage operations of the phone book. Each is wrapped by connector:
// it opens the connection, runs the query, closes the connection and hands
// back the query's result as it is.

module Storage {
  import opened DbOps

  /** A (name, phone) pair as the list and search queries return it. */
  type Entry = (string, string)

  /** A row as check_persons returns it: a dict with the keys 'name' and 'phone'. */
  type PersonDict = map<string, string>

  /** The pairs of the given rows. */
  function Entries(rows: seq<Person>): (r: seq<Entry>)
    ensures |r| == |rows|
  {
    if rows == [] then [] else [(rows[0].name, rows[0].phone)] + Entries(rows[1..])
  }

  lemma {:induction false} EntriesAt(rows: seq<Person>, k: nat)
    requires k < |rows|
    ensures Entries(rows)[k] == (rows[k].name, rows[k].phone)
  {
    if k > 0 {
      EntriesAt(rows[1..], k - 1);
    }
  }

  /** A pair is listed exactly when it is a row of the table. */
  lemma EntriesMembers(rows: seq<Person>, n: string, p: string)
    ensures (n, p) in Entries(rows) <==> Person(n, p) in rows
  {
    var es := Entries(rows);
    if (n, p) in es {
      var k :| 0 <= k < |es| && es[k] == (n, p);
      EntriesAt(rows, k);
      assert rows[k] == Person(n, p);
    }
    if Person(n, p) in rows {
      var k :| 0 <= k < |rows| && rows[k] == Person(n, p);
      EntriesAt(rows, k);
    }
  }

  /** `q` occurs in `s` starting at index i. */
  predicate OccursAt(q: string, s: string, i: nat) {
    i + |q| <= |s| && s[i..i + |q|] == q
  }

  /**
   * The GLOB pattern '*q*' matched against s, with q read literally: try q
   * at the start of s, then at every later position.
   */
  predicate Contains(s: string, q: string)
    decreases |s|
  {
    (|q| <= |s| && s[..|q|] == q) || (s != [] && Contains(s[1..], q))
  }

  /** The scan finds q exactly when q occurs somewhere in s. */
  lemma {:induction false} ContainsIsSubstring(s: string, q: string)
    ensures Contains(s, q) <==> exists i: nat :: OccursAt(q, s, i)
    decreases |s|
  {
    if |q| <= |s| && s[..|q|] == q {
      assert OccursAt(q, s, 0);
    } else if s == [] {
      forall i: nat ensures !OccursAt(q, s, i) {
      }
    } else {
      ContainsIsSubstring(s[1..], q);
      if Contains(s[1..], q) {
        var i: nat :| OccursAt(q, s[1..], i);
        assert s[1..][i..i + |q|] == s[i + 1..i + 1 + |q|];
        assert OccursAt(q, s, i + 1);
      } else {
        forall i: nat | OccursAt(q, s, i) ensures false {
          assert i != 0;
          assert s[1..][i - 1..i - 1 + |q|] == s[i..i + |q|];
          assert OccursAt(q, s[1..], i - 1);
        }
      }
    }
  }

  /** The rows whose name contains q. */
  function Matching(rows: seq<Person>, q: string): (r: seq<Person>)
    ensures |r| <= |rows|
  {
    if rows == [] then []
    else (if Contains(rows[0].name, q) then [rows[0]] else []) + Matching(rows[1..], q)
  }

  lemma {:induction false} MatchingMembers(rows: seq<Person>, q: string, x: Person)
    ensures x in Matching(rows, q) <==> x in rows && Contains(x.name, q)
  {
    if rows != [] {
      MatchingMembers(rows[1..], q, x);
      assert x in rows <==> x == rows[0] || x in rows[1..];
    }
  }

  /** add_entry: IntegrityError on a phone already present becomes False. */
  method AddEntry(db: Database, name: string, phone: string) returns (ok: bool)
    requires db.Valid() && db.fileExists && !db.connected
    modifies db
    ensures db.Valid() && db.fileExists && !db.connected
    ensures ok <==> !HasPhone(old(db.rows), phone)
    ensures db.rows == if ok then old(db.rows) + [Person(name, phone)] else old(db.rows)
  {
    db.Connect();
    var saved := db.Insert(Person(name, phone));
    ok := saved.Ok? && saved.value != 0;
    db.Close();
  }

  /** remove_entry: DoesNotExist on an absent phone becomes False. */
  method RemoveEntry(db: Database, phone: string) returns (ok: bool)
    requires db.Valid() && db.fileExists && !db.connected
    modifies db
    ensures db.Valid() && db.fileExists && !db.connected
    ensures ok <==> HasPhone(old(db.rows), phone)
    ensures db.rows == if ok then Without(old(db.rows), phone) else old(db.rows)
  {
    db.Connect();
    var found := db.Get(phone);
    if found.Ok? {
      var deleted := db.DeleteInstance(found.value);
      ok := deleted != 0;
    } else {
      ok := false;
    }
    db.Close();
  }

  /** list_all_entries: every row as a pair. */
  method ListAllEntries(db: Database) returns (entries: seq<Entry>)
    requires db.Valid() && db.fileExists && !db.connected
    modifies db
    ensures db.Valid() && db.fileExists && !db.connected && db.rows == old(db.rows)
    ensures entries == Entries(db.rows)
  {
    db.Connect();
    entries := Entries(db.rows);
    db.Close();
  }

  /** search_entries_by_name: the pairs of the rows whose name contains `name`. */
  method SearchEntriesByName(db: Database, name: string) returns (entries: seq<Entry>)
    requires db.Valid() && db.fileExists && !db.connected
    modifies db
    ensures db.Valid() && db.fileExists && !db.connected && db.rows == old(db.rows)
    ensures entries == Entries(Matching(db.rows, name))
  {
    db.Connect();
    entries := Entries(Matching(db.rows, name));
    db.Close();
  }

  /** The search result holds exactly the pairs whose name contains the query. */
  lemma SearchResultsExact(rows: seq<Person>, q: string, n: string, p: string)
    ensures (n, p) in Entries(Matching(rows, q)) <==>
      Person(n, p) in rows && exists i: nat :: OccursAt(q, n, i)
  {
    ContainsIsSubstring(n, q);
    EntriesMembers(Matching(rows, q), n, p);
    MatchingMembers(rows, q, Person(n, p));
  }

  function PersonRepr(person: Person): (d: PersonDict)
    ensures d.Keys == {"name", "phone"}
    ensures d["name"] == person.name && d["phone"] == person.phone
  {
    map["name" := person.name, "phone" := person.phone]
  }

  /** check_persons: every row as a dict, in the order of the table. */
  method CheckPersons(db: Database) returns (persons: seq<PersonDict>)
    requires db.Valid() && db.fileExists && !db.connected
    modifies db
    ensures db.Valid() && db.fileExists && !db.connected && db.rows == old(db.rows)
    ensures |persons| == |db.rows|
    ensures forall k :: 0 <= k < |persons| ==>
      persons[k].Keys == {"name", "phone"} &&
      Entries(db.rows)[k] == (persons[k]["name"], persons[k]["phone"])
  {
    db.Connect();
    var selected := db.rows;
    persons := [];
    for i := 0 to |selected|
      invariant |persons| == i
      invariant forall k :: 0 <= k < i ==> persons[k] == PersonRepr(selected[k])
    {
      var perRepr := PersonRepr(selected[i]);
      persons := persons + [perRepr];
    }
    db.Close();
    forall k | 0 <= k < |persons|
      ensures Entries(db.rows)[k] == (persons[k]["name"], persons[k]["phone"])
    {
      EntriesAt(db.rows, k);
    }
  }
}
