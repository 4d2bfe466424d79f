/** The standalone seeding script: it drops the `users` table, recreates it
    and inserts the twenty demo accounts, so every quota is reset. */
module Seeder {
  import opened Accounts

  /** Runs the script against the database. The new table depends only on
      the seed passwords, never on the old rows, so running it twice leaves
      the same table as running it once. */
  method ResetSeed(db: UserTable, passwords: seq<string>)
    requires |passwords| == |DemoNames|
    modifies db
    ensures db.rows == AfterInsertAll(map[], DemoSeed(passwords))
    ensures db.rows.Keys == set n | n in DemoNames
    ensures forall i :: 0 <= i < |DemoNames| ==> db.rows[DemoNames[i]] == Row(passwords[i], MaxRequests, 1)
    ensures QuotaConsistent(db.rows)
  {
    db.DropAndCreate();
    db.InsertEach(DemoSeed(passwords));
    DemoSeedIntoEmpty(passwords);
  }
}
