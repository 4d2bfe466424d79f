# Quota-gated login and usage counter

A model of the demo app's account store and session gate. The app keeps a
`users` table (username, password, `uses_available`, `active`) in SQLite. It
seeds twenty demo accounts at start-up without touching existing rows. It lets
a visitor log in when the password matches and the account is active. Each
submitted text costs one use: the session's cached counter drops by one and is
written back, with its active flag, before the hosted classifier is called. A
separate seeding script drops the table and re-creates the twenty accounts,
which resets every quota.

Files:

- `accounts.dfy` (module `Accounts`): the table as `map<string, Row>`. It has
  the SQL statements as specification functions (`AfterInsertOrIgnore`,
  `AfterInsertAll`, `AfterUpdate`, `Lookup`), the demo seed list, the
  quota-consistency invariant, and the class `UserTable` whose methods run
  those statements on a `rows` field.
- `seeder.dfy` (module `Seeder`): the reset script as one method.
- `app.dfy` (module `App`): `InitDb`, the login decision `Decide`, the class
  `Session` (the visitor's `st.session_state`) with `Login` and `Submit`,
  `CreateUserMessage`, and the emoji lookup.

Passwords are abstract strings: both seed lists are `DemoSeed(passwords)`
over the fixed names `demo1` … `demo20`. The classifier call is the parameter
`response: Option<string>` of `Submit`, where `None` stands for a call that
raised.

Two consequences of the login check at app.py:181-194:

- Every account with `active == 0` gets "no remaining uses", whatever the
  reason it was disabled.
- `active` is an integer column. A row whose `active` is neither 0 nor 1
  never logs in, and it gets the generic "invalid username or password".

## Model

| member | source | states |
|---|---|---|
| `Accounts.DemoSeed` | app.py:27-48 | the seed list has one tuple per demo username, twenty in all |
| `Accounts.Lookup` | app.py:172-178 | the SELECT by primary key finds a row iff the username is in the table, and then it is that username's row |
| `Accounts.AfterInsertOrIgnore` | app.py:51 | INSERT OR IGNORE adds the key; an existing row is kept unchanged; an absent key gets the tuple's row |
| `Accounts.AfterInsertAll` | app.py:50-51 | after the seeding loop the keys are the old keys plus the seed usernames, and every row that existed before is unchanged |
| `Accounts.FirstSeedWins` | sqllite_seeder_users.py:47-48 | an absent username gets the row of the first tuple that names it; later tuples with that name are ignored |
| `Accounts.AfterUpdate` | app.py:260-267 | the UPDATE keeps the key set, gives the named row the new quota and flag with its password kept, leaves every other row alone, and changes nothing for an absent username |
| `Accounts.InsertAllIdempotent` | app.py:50-51 | seeding twice with one list gives the table of seeding once |
| `Accounts.InsertAllKeepsConsistent` | app.py:27-51 | seeding keeps "quota used up implies inactive" when every seed row satisfies it |
| `Accounts.QuotaWriteKeepsConsistent` | app.py:257-267 | writing a quota with `active = (quota > 0 ? 1 : 0)` keeps "quota used up implies inactive" |
| `Accounts.DemoNamesDistinct` | sqllite_seeder_users.py:23-44 | the twenty seed usernames are pairwise distinct |
| `Accounts.DemoSeedIntoEmpty` | sqllite_seeder_users.py:8-48 | inserting the seed list into an empty table gives exactly the twenty demo usernames, each with its password, 10 uses and `active = 1` |
| `Accounts.UserTable.constructor` | app.py:17-24 | creating the table on a fresh database gives an empty table |
| `Accounts.UserTable.Select` | app.py:174-178 | returns the row stored for the username, or none |
| `Accounts.UserTable.InsertOrIgnore` | app.py:51 | the table becomes `AfterInsertOrIgnore` of the old table |
| `Accounts.UserTable.InsertEach` | app.py:50-51 | the seeding loop leaves `AfterInsertAll` of the old table; the loop invariant says the first `i` tuples are done |
| `Accounts.UserTable.Update` | app.py:258-269 | the table becomes `AfterUpdate` of the old table |
| `Accounts.UserTable.DropAndCreate` | sqllite_seeder_users.py:8-18 | after DROP and CREATE the table is empty |
| `Seeder.ResetSeed` | sqllite_seeder_users.py:1-51 | the new table is the seed list inserted into an empty table, so it does not depend on the old rows and a second run gives the same table; it holds exactly the twenty usernames, each with 10 uses and `active = 1`, and is quota-consistent |
| `App.InitDb` | app.py:12-54 | existing rows, including consumed quotas and cleared flags, are unchanged; each absent demo username gets (its password, 10, 1); the key set grows by the demo usernames; quota consistency is kept |
| `App.InitDbIdempotent` | app.py:50-51 | running `init_db` twice leaves the table of running it once |
| `App.CreateUserMessage` | app.py:73-85 | the prompt is the prefix "Text: ", then the text, then the fixed two-newline question |
| `App.UserMessageRoundTrip` | app.py:85 | the text can be read back from the prompt built from it |
| `App.ExtractTextSound` | app.py:85 | every string that reads as a prompt is the prompt of the text read from it |
| `App.UserMessageInjective` | app.py:85 | different texts give different prompts |
| `App.Lower` | app.py:276 | lower-casing keeps the length and maps each character through ASCII lower case |
| `App.LowerIdempotent` | app.py:276 | lower-casing twice is lower-casing once |
| `App.EmojiFor` | app.py:276 | a label that lower-cases to one of the seven emotions gets that emotion's emoji; the magnifier "🔍" comes back exactly when it does not |
| `App.EmojisDistinct` | app.py:133-141 | no two emotions share an emoji |
| `App.EmojiForIgnoresCase` | app.py:276 | the lookup gives the same emoji for a label and its lower-case form |
| `App.Decide` | app.py:181-194 | login succeeds iff the row exists, the password matches exactly and `active == 1`, carrying the stored quota; "no remaining uses" comes back iff the row exists with `active == 0`, whatever the password; everything else is the generic failure |
| `App.UnknownUserLikeWrongPassword` | app.py:189-194 | an unknown username gets the same outcome as a wrong password for an account with `active != 0` |
| `App.ExhaustedAccountRefused` | app.py:183-190 | once a quota of zero or less has been written, login with any password gives "no remaining uses" |
| `App.Session.constructor` | app.py:199-200 | a new session is not authenticated |
| `App.Session.Login` | app.py:171-194 | the table is only read; the outcome is `Decide` on the stored row; success sets authenticated, the username and the cached counter to the stored quota; failure leaves the session unchanged |
| `App.FailedCallKeepsCharge` | app.py:257-294 | from equal states, a submission whose classifier call answers and one whose call raises leave equal tables and equal session counters, both charged one use |
| `App.Session.Submit` | app.py:234-299 | with no uses left nothing changes; with an empty text nothing changes; otherwise the counter drops by exactly 1, the user's row gets that counter and `active = (counter > 0 ? 1 : 0)`, and every other row is unchanged; an answer is shown with its emoji, and a raised call as an error; the write is the same whether the classifier answers or raises, and it takes the cached counter, not the stored row; the counter never drops below zero; cache agreement and quota consistency are kept |

## Left out

- Page rendering: the Streamlit forms, markdown and HTML, spinners, `st.rerun`, and the success, error and warning texts. The outcome datatypes name which message is shown.
- Reading the logo file and base64-encoding it. This is file I/O. In `login` a missing logo only shows an error, and the login goes on (app.py:147-162). In `main` a missing logo ends the run before the quota branch (app.py:206-211), so no form or warning is shown and no use is charged. The model treats such a run as one where no text is submitted, so nothing changes.
- The OpenAI client and `detect_emotion`. This is a network call, modelled only by its result (`Option<string>`), which never affects the table or the counter. The system message, model id, temperature, token cap and the `.strip()` of the answer are not modelled.
- `st.secrets` and the literal passwords. Passwords are abstract parameters.
- SQLite connections, commits and closes. Each statement is one atomic map update.
- Two sessions using one account at once. Each `Session` writes its own cached counter, so two sessions can lose each other's updates. No lemma is stated about interleavings.
- The `isinstance` checks. Dafny's types already guarantee them.
- `App.Lower`: models ASCII lower case only. Python's `str.lower` also lower-cases non-ASCII letters, so a non-ASCII label may map differently. None of the seven emotion keys contains a non-ASCII letter.
- `capitalize()` on the displayed label. This is display only.
- The column default of 5 in the seeding script's schema. Every insert supplies all four columns (`SeedRow`), so no default ever applies.
- No logout. The source has none either.
