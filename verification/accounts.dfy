/** The `users` table that both the web app and the standalone seeder share:
    one row per username, holding the password, the remaining quota and the
    active flag. The table is a map keyed by the primary key `username`. */
module Accounts {

  datatype Option<T> = None | Some(value: T)

  /** One row of `users`, without its key. `active` is the INTEGER flag of the
      schema: the app writes 0 or 1, but any integer can be stored. */
  datatype Row = Row(password: string, usesAvailable: int, active: int)

  /** One tuple of an `INSERT OR IGNORE INTO users VALUES (?, ?, ?, ?)`:
      all four columns are supplied, so no column default ever applies. */
  datatype SeedRow = SeedRow(username: string, password: string, usesAvailable: int, active: int)
  {
    function AsRow(): (r: Row) { Row(password, usesAvailable, active) }
  }

  type Table = map<string, Row>

  /** The quota every seeded account starts with (`max_requests`). */
  const MaxRequests: int := 10

  /** The usernames of the seed list, in the order they are inserted. */
  const DemoNames: seq<string> := [
    "demo1", "demo2", "demo3", "demo4", "demo5",
    "demo6", "demo7", "demo8", "demo9", "demo10",
    "demo11", "demo12", "demo13", "demo14", "demo15",
    "demo16", "demo17", "demo18", "demo19", "demo20"
  ]

  /** The seed list, given the password of each account in order: every
      account starts with `MaxRequests` uses and `active = 1`. */
  function DemoSeed(passwords: seq<string>): (seeds: seq<SeedRow>)
    requires |passwords| == |DemoNames|
    ensures |seeds| == |DemoNames|
  {
    seq(|DemoNames|, i requires 0 <= i < |DemoNames| => SeedRow(DemoNames[i], passwords[i], MaxRequests, 1))
  }

  /** `SELECT password, uses_available, active FROM users WHERE username = ?` */
  function Lookup(rows: Table, username: string): (found: Option<Row>)
    ensures found.Some? <==> username in rows
    ensures found.Some? ==> found.value == rows[username]
  {
    if username in rows then Some(rows[username]) else None
  }

  /** The usernames a seed list mentions. */
  function Names(seeds: seq<SeedRow>): (names: set<string>)
  {
    set s | s in seeds :: s.username
  }

  /** Seed `i` is the first tuple in `seeds` with its username. */
  ghost predicate FirstWithName(seeds: seq<SeedRow>, i: int)
    requires 0 <= i < |seeds|
  {
    forall j :: 0 <= j < i ==> seeds[j].username != seeds[i].username
  }

  /** The table after one `INSERT OR IGNORE`: the tuple is added when its key
      is absent, and the statement does nothing when the key is present. */
  function AfterInsertOrIgnore(rows: Table, seed: SeedRow): (r: Table)
    ensures r.Keys == rows.Keys + {seed.username}
    ensures forall u :: u in rows ==> r[u] == rows[u]
    ensures seed.username !in rows ==> r[seed.username] == seed.AsRow()
  {
    if seed.username in rows then rows else rows[seed.username := seed.AsRow()]
  }

  /** The table after one `INSERT OR IGNORE` per seed, in order: the table
      gains exactly the seed usernames, and existing rows are never
      overwritten. */
  function AfterInsertAll(rows: Table, seeds: seq<SeedRow>): (r: Table)
    decreases |seeds|
    ensures r.Keys == rows.Keys + Names(seeds)
    ensures forall u :: u in rows ==> r[u] == rows[u]
  {
    if seeds == [] then rows
    else
      var init, last := seeds[..|seeds| - 1], seeds[|seeds| - 1];
      assert Names(seeds) == Names(init) + {last.username} by {
        assert seeds == init + [last];
      }
      AfterInsertOrIgnore(AfterInsertAll(rows, init), last)
  }

  /** Of several tuples with one username only the first is inserted: an
      absent username gets the row of the first seed that names it. */
  lemma {:induction false} FirstSeedWins(rows: Table, seeds: seq<SeedRow>, i: nat)
    requires i < |seeds| && seeds[i].username !in rows && FirstWithName(seeds, i)
    ensures AfterInsertAll(rows, seeds)[seeds[i].username] == seeds[i].AsRow()
    decreases |seeds|
  {
    var init, last := seeds[..|seeds| - 1], seeds[|seeds| - 1];
    if i < |seeds| - 1 {
      assert init[i] == seeds[i];
      assert FirstWithName(init, i) by {
        forall j | 0 <= j < i ensures init[j].username != init[i].username {
          assert init[j] == seeds[j];
        }
      }
      FirstSeedWins(rows, init, i);
    }
  }

  /** The table after `UPDATE users SET uses_available = ?, active = ? WHERE
      username = ?`: the one row with that key gets the two new values and
      keeps its password; with no such row nothing changes. */
  function AfterUpdate(rows: Table, username: string, usesAvailable: int, active: int): (r: Table)
    ensures r.Keys == rows.Keys
    ensures username in rows ==> r[username] == Row(rows[username].password, usesAvailable, active)
    ensures forall u :: u in rows && u != username ==> r[u] == rows[u]
  {
    if username in rows then rows[username := rows[username].(usesAvailable := usesAvailable, active := active)]
    else rows
  }

  /** The flag the app writes beside a quota: 1 while uses remain, else 0. */
  function ActiveFlag(usesAvailable: int): (flag: int)
  {
    if usesAvailable > 0 then 1 else 0
  }

  /** Every account whose quota is used up is inactive. */
  ghost predicate QuotaConsistent(rows: Table)
  {
    forall u :: u in rows && rows[u].usesAvailable <= 0 ==> rows[u].active == 0
  }

  /** Seeding twice with the same list gives the table of seeding once. */
  lemma InsertAllIdempotent(rows: Table, seeds: seq<SeedRow>)
    ensures AfterInsertAll(AfterInsertAll(rows, seeds), seeds) == AfterInsertAll(rows, seeds)
  {
  }

  /** Seeding keeps the table quota-consistent when every seed row is. */
  lemma InsertAllKeepsConsistent(rows: Table, seeds: seq<SeedRow>)
    requires QuotaConsistent(rows)
    requires forall s :: s in seeds && s.usesAvailable <= 0 ==> s.active == 0
    ensures QuotaConsistent(AfterInsertAll(rows, seeds))
  {
  }

  /** Writing a quota together with its `ActiveFlag` keeps the table
      quota-consistent. */
  lemma QuotaWriteKeepsConsistent(rows: Table, username: string, usesAvailable: int)
    requires QuotaConsistent(rows)
    ensures QuotaConsistent(AfterUpdate(rows, username, usesAvailable, ActiveFlag(usesAvailable)))
  {
  }

  /** No two seed usernames coincide. */
  lemma DemoNamesDistinct()
    ensures forall i, j :: 0 <= i < j < |DemoNames| ==> DemoNames[i] != DemoNames[j]
  {
  }

  /** Inserting the seed list into an empty table gives exactly the twenty
      demo accounts, each with its own password, `MaxRequests` uses and
      `active = 1`. */
  lemma DemoSeedIntoEmpty(passwords: seq<string>)
    requires |passwords| == |DemoNames|
    ensures AfterInsertAll(map[], DemoSeed(passwords)).Keys == set n | n in DemoNames
    ensures forall i :: 0 <= i < |DemoNames| ==>
              AfterInsertAll(map[], DemoSeed(passwords))[DemoNames[i]] == Row(passwords[i], MaxRequests, 1)
  {
    var seeds := DemoSeed(passwords);
    DemoNamesDistinct();
    assert Names(seeds) == set n | n in DemoNames by {
      forall n | n in DemoNames ensures n in Names(seeds) {
        var i :| 0 <= i < |DemoNames| && DemoNames[i] == n;
        assert seeds[i] in seeds;
      }
    }
    forall i | 0 <= i < |DemoNames|
      ensures AfterInsertAll(map[], seeds)[DemoNames[i]] == Row(passwords[i], MaxRequests, 1)
    {
      FirstSeedWins(map[], seeds, i);
    }
  }

  /** The `users` table as the database file holds it. */
  class UserTable {
    var rows: Table

    /** `CREATE TABLE IF NOT EXISTS users` on a database without the table. */
    constructor ()
      ensures rows == map[]
    {
      rows := map[];
    }

    method Select(username: string) returns (found: Option<Row>)
      ensures found == Lookup(rows, username)
    {
      found := Lookup(rows, username);
    }

    method InsertOrIgnore(seed: SeedRow)
      modifies this
      ensures rows == AfterInsertOrIgnore(old(rows), seed)
    {
      if seed.username !in rows {
        rows := rows[seed.username := seed.AsRow()];
      }
    }

    method Update(username: string, usesAvailable: int, active: int)
      modifies this
      ensures rows == AfterUpdate(old(rows), username, usesAvailable, active)
    {
      if username in rows {
        rows := rows[username := Row(rows[username].password, usesAvailable, active)];
      }
    }

    /** One `INSERT OR IGNORE` per seed, in order, as both seeding loops run it. */
    method InsertEach(seeds: seq<SeedRow>)
      modifies this
      ensures rows == AfterInsertAll(old(rows), seeds)
    {
      for i := 0 to |seeds|
        invariant rows == AfterInsertAll(old(rows), seeds[..i])
      {
        InsertOrIgnore(seeds[i]);
        assert seeds[..i + 1][..i] == seeds[..i];
      }
      assert seeds[..|seeds|] == seeds;
    }

    /** `DROP TABLE IF EXISTS users` followed by `CREATE TABLE IF NOT EXISTS users`. */
    method DropAndCreate()
      modifies this
      ensures rows == map[]
    {
      rows := map[];
    }
  }
}
