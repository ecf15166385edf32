/**
 * The `users` table behind `run_query` (import_os.py): `users(id TEXT PRIMARY
 * KEY, name TEXT)`, created when absent, seeded with INSERT OR IGNORE on every
 * query, then read by primary key.
 */
module UserStore {
  import opened Wrappers

  /** A row of `users`, as `dict(row)` gives it: `{id, name}`. */
  datatype User = User(id: string, name: string)

  /** The rows of `users`, keyed by the primary key `id`. */
  type Rows = map<string, string>

  /** The table after inserting `(id, name)`, ignoring the row when its primary key is already present. */
  function InsertOrIgnore(rows: Rows, id: string, name: string): (r: Rows)
    ensures r.Keys == rows.Keys + {id}
    ensures forall k :: k in rows ==> r[k] == rows[k]
    ensures id !in rows ==> r[id] == name
  {
    if id in rows then rows else rows[id := name]
  }

  /** The two seed statements of `run_query`: `("1", "Alice")`, then `("2", "Bob")`. */
  function Seed(rows: Rows): (r: Rows)
    ensures r.Keys == rows.Keys + {"1", "2"}
    ensures forall k :: k in rows ==> r[k] == rows[k]
    ensures "1" !in rows ==> r["1"] == "Alice"
    ensures "2" !in rows ==> r["2"] == "Bob"
  {
    InsertOrIgnore(InsertOrIgnore(rows, "1", "Alice"), "2", "Bob")
  }

  /** The row whose primary key is `id`, with its name, or none when the key is absent. */
  function Select(rows: Rows, id: string): (row: Option<User>)
    ensures row.Some? <==> id in rows
    ensures row.Some? ==> row.value.id == id && row.value.name == rows[id]
  {
    if id in rows then Some(User(id, rows[id])) else None
  }

  /** A table that holds both seed keys is left as it is by seeding. */
  lemma SeededTableIsFixed(rows: Rows)
    requires "1" in rows && "2" in rows
    ensures Seed(rows) == rows
  {
    assert Seed(rows).Keys == rows.Keys;
  }

  /** Seeding twice is seeding once. */
  lemma SeedIdempotent(rows: Rows)
    ensures Seed(Seed(rows)) == Seed(rows)
  {
    SeededTableIsFixed(Seed(rows));
  }

  /** Seeding changes no row whose key is neither `"1"` nor `"2"`, and adds none. */
  lemma SeedTouchesOnlySeedKeys(rows: Rows, id: string)
    requires id != "1" && id != "2"
    ensures Select(Seed(rows), id) == Select(rows, id)
  {
  }

  /** After seeding, `"1"` and `"2"` are always found; their names are the seeds only where the row was absent. */
  lemma SeedIdsFound(rows: Rows)
    ensures Select(Seed(rows), "1") == Some(User("1", if "1" in rows then rows["1"] else "Alice"))
    ensures Select(Seed(rows), "2") == Some(User("2", if "2" in rows then rows["2"] else "Bob"))
  {
  }

  /** The database file `app.db`: whether `users` exists, and its rows. */
  class Database {
    var tableExists: bool
    var users: Rows

    /** A table that does not exist has no rows. */
    ghost predicate Valid()
      reads this
    {
      !tableExists ==> users == map[]
    }

    /** A database file without the `users` table. */
    constructor ()
      ensures Valid() && !tableExists && users == map[]
    {
      tableExists := false;
      users := map[];
    }

    /** A database file whose `users` table already holds `rows`. */
    constructor Existing(rows: Rows)
      ensures Valid() && tableExists && users == rows
    {
      tableExists := true;
      users := rows;
    }

    /** Creates the `users` table when the file has none; an existing table and its rows stay as they are. */
    method CreateTableIfNotExists()
      requires Valid()
      modifies this
      ensures Valid() && tableExists
      ensures users == old(users)
    {
      tableExists := true;
    }

    /** Adds the row `(id, name)` unless a row with that primary key is already there, in which case nothing changes. */
    method InsertOrIgnoreRow(id: string, name: string)
      requires Valid() && tableExists
      modifies this
      ensures Valid() && tableExists
      ensures users == InsertOrIgnore(old(users), id, name)
    {
      if id !in users {
        users := users[id := name];
      }
    }

    /** Looks up the row by primary key and returns the first (and only) match, if any. */
    method SelectById(id: string) returns (row: Option<User>)
      requires Valid() && tableExists
      ensures row.Some? <==> id in users
      ensures row.Some? ==> row == Some(User(id, users[id]))
    {
      if id in users {
        row := Some(User(id, users[id]));
      } else {
        row := None;
      }
    }

    /**
     * `run_query`: create the table when absent, seed it, select by key. The
     * seed rows are always present afterwards, an existing row is never
     * overwritten, and a second query changes nothing more.
     */
    method RunQuery(id: string) returns (row: Option<User>)
      requires Valid()
      modifies this
      ensures Valid() && tableExists
      ensures users == Seed(old(users))
      ensures row == Select(users, id)
      ensures old(tableExists) && "1" in old(users) && "2" in old(users) ==> users == old(users)
    {
      CreateTableIfNotExists();
      InsertOrIgnoreRow("1", "Alice");
      InsertOrIgnoreRow("2", "Bob");
      row := SelectById(id);
      if old(tableExists) && "1" in old(users) && "2" in old(users) {
        SeededTableIsFixed(old(users));
      }
    }
  }

  /** Two queries in a row: the second sees the table the first left, unchanged. */
  method RepeatedQueries(db: Database, first: string, second: string) returns (a: Option<User>, b: Option<User>)
    requires db.Valid()
    modifies db
    ensures db.Valid() && db.users == Seed(old(db.users))
    ensures a == Select(db.users, first) && b == Select(db.users, second)
  {
    a := db.RunQuery(first);
    ghost var afterFirst := db.users;
    b := db.RunQuery(second);
    assert db.users == afterFirst;
  }
}
