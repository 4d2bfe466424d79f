/** The web app: seeding at start-up, the login check, the quota-gated
    submission step and the two helpers around the classification call.
    The page state of one visitor is a `Session`; the database is the
    `UserTable` every session shares. */
module App {
  import opened Accounts

  // ---------------------------------------------------------------------
  // Start-up seeding

  /** `init_db`: creates the table when missing and inserts each demo account
      whose username is absent. A returning account keeps its row, including
      a consumed quota and a cleared active flag. */
  method InitDb(db: UserTable, passwords: seq<string>)
    requires |passwords| == |DemoNames|
    modifies db
    ensures db.rows == AfterInsertAll(old(db.rows), DemoSeed(passwords))
    ensures db.rows.Keys == old(db.rows).Keys + set n | n in DemoNames
    ensures forall u :: u in old(db.rows) ==> db.rows[u] == old(db.rows)[u]
    ensures forall i :: 0 <= i < |DemoNames| && DemoNames[i] !in old(db.rows) ==>
              db.rows[DemoNames[i]] == Row(passwords[i], MaxRequests, 1)
    ensures QuotaConsistent(old(db.rows)) ==> QuotaConsistent(db.rows)
  {
    var seeds := DemoSeed(passwords);
    db.InsertEach(seeds);
    if QuotaConsistent(old(db.rows)) {
      InsertAllKeepsConsistent(old(db.rows), seeds);
    }
    DemoNamesDistinct();
    assert Names(seeds) == set n | n in DemoNames by {
      forall n | n in DemoNames ensures n in Names(seeds) {
        var i :| 0 <= i < |DemoNames| && DemoNames[i] == n;
        assert seeds[i] in seeds;
      }
    }
    forall i | 0 <= i < |DemoNames| && DemoNames[i] !in old(db.rows)
      ensures db.rows[DemoNames[i]] == Row(passwords[i], MaxRequests, 1)
    {
      FirstSeedWins(old(db.rows), seeds, i);
    }
  }

  /** Starting the app twice seeds the same table as starting it once. */
  lemma InitDbIdempotent(rows: Table, passwords: seq<string>)
    requires |passwords| == |DemoNames|
    ensures AfterInsertAll(AfterInsertAll(rows, DemoSeed(passwords)), DemoSeed(passwords))
         == AfterInsertAll(rows, DemoSeed(passwords))
  {
    InsertAllIdempotent(rows, DemoSeed(passwords));
  }

  // ---------------------------------------------------------------------
  // The prompt sent to the classifier

  const PromptPrefix: string := "Text: "
  const PromptSuffix: string := "\n\nWhat is the emotion expressed in this text?"

  /** `create_user_message`: the visitor's text, framed by a fixed prefix and
      a fixed question. */
  function CreateUserMessage(text: string): (m: string)
    ensures |m| == |PromptPrefix| + |text| + |PromptSuffix|
    ensures m[..|PromptPrefix|] == PromptPrefix
    ensures m[|PromptPrefix|..|PromptPrefix| + |text|] == text
    ensures m[|PromptPrefix| + |text|..] == PromptSuffix
  {
    PromptPrefix + text + PromptSuffix
  }

  /** Recovers the visitor's text from a prompt, if it has the prompt's shape. */
  function ExtractText(m: string): (t: Option<string>)
    ensures t.Some? ==> |m| == |PromptPrefix| + |t.value| + |PromptSuffix|
  {
    if |PromptPrefix| + |PromptSuffix| <= |m|
       && m[..|PromptPrefix|] == PromptPrefix
       && m[|m| - |PromptSuffix|..] == PromptSuffix
    then Some(m[|PromptPrefix|..|m| - |PromptSuffix|])
    else None
  }

  /** The prompt determines the text it was built from. */
  lemma UserMessageRoundTrip(text: string)
    ensures ExtractText(CreateUserMessage(text)) == Some(text)
  {
    var m := CreateUserMessage(text);
    assert m[|m| - |PromptSuffix|..] == PromptSuffix;
  }

  /** Every string that reads as a prompt is the prompt of the text read
      from it. */
  lemma ExtractTextSound(m: string)
    requires ExtractText(m).Some?
    ensures CreateUserMessage(ExtractText(m).value) == m
  {
    var t := ExtractText(m).value;
    assert m == m[..|PromptPrefix|] + t + m[|m| - |PromptSuffix|..];
  }

  /** Different texts give different prompts. */
  lemma UserMessageInjective(a: string, b: string)
    requires CreateUserMessage(a) == CreateUserMessage(b)
    ensures a == b
  {
    UserMessageRoundTrip(a);
    UserMessageRoundTrip(b);
  }

  // ---------------------------------------------------------------------
  // The emoji shown beside the detected emotion

  const EmotionEmojis: map<string, string> := map[
    "joy" := "😊",
    "fear" := "😨",
    "disgust" := "🤢",
    "guilt" := "😔",
    "shame" := "😳",
    "sadness" := "😢",
    "anger" := "😡"
  ]

  const DefaultEmoji: string := "🔍"

  /** ASCII lower case of one character. */
  function LowerChar(c: char): (lower: char)
  {
    if 'A' <= c <= 'Z' then ((c as int) + 32) as char else c
  }

  /** ASCII lower case of a string, character by character. */
  function Lower(s: string): (r: string)
    ensures |r| == |s|
    ensures forall i :: 0 <= i < |s| ==> r[i] == LowerChar(s[i])
  {
    if s == [] then [] else [LowerChar(s[0])] + Lower(s[1..])
  }

  /** Lower-casing twice is lower-casing once. */
  lemma LowerIdempotent(s: string)
    ensures Lower(Lower(s)) == Lower(s)
  {
  }

  /** `emotion_emojis.get(response.lower(), "🔍")`: the emoji of the label in
      any letter case, and the magnifier exactly when the label is not one of
      the seven emotions. */
  function EmojiFor(response: string): (e: string)
    ensures Lower(response) in EmotionEmojis ==> e == EmotionEmojis[Lower(response)]
    ensures e == DefaultEmoji <==> Lower(response) !in EmotionEmojis
  {
    if Lower(response) in EmotionEmojis then EmotionEmojis[Lower(response)] else DefaultEmoji
  }

  /** The emoji names the emotion: no two labels share one. */
  lemma EmojisDistinct(a: string, b: string)
    requires a in EmotionEmojis && b in EmotionEmojis && a != b
    ensures EmotionEmojis[a] != EmotionEmojis[b]
  {
  }

  /** The lookup ignores the letter case of the model's answer. */
  lemma EmojiForIgnoresCase(response: string)
    ensures EmojiFor(response) == EmojiFor(Lower(response))
  {
    LowerIdempotent(response);
  }

  // ---------------------------------------------------------------------
  // Login

  datatype LoginOutcome =
    | LoggedIn(usesAvailable: int)   // "Welcome, <username>!"
    | NoRemainingUses                // "You have no remaining uses in this accout."
    | InvalidCredentials             // "Invalid username or password."

  /** The login decision on the row the SELECT returned (or none) and the
      typed password. A matching password logs in only with `active == 1`;
      `active == 0` is reported as exhausted whether or not the password
      matched; everything else, unknown usernames included, is one generic
      failure. */
  function Decide(found: Option<Row>, password: string): (outcome: LoginOutcome)
    ensures outcome.LoggedIn? <==> found.Some? && password == found.value.password && found.value.active == 1
    ensures outcome.LoggedIn? ==> outcome.usesAvailable == found.value.usesAvailable
    ensures outcome.NoRemainingUses? <==> found.Some? && found.value.active == 0
  {
    match found
    case None => InvalidCredentials
    case Some(row) =>
      if password == row.password && row.active == 1 then LoggedIn(row.usesAvailable)
      else if row.active == 0 then NoRemainingUses
      else InvalidCredentials
  }

  /** An unknown username reads exactly like a wrong password for an
      account that is not suspended. */
  lemma UnknownUserLikeWrongPassword(row: Row, typed: string, other: string)
    requires typed != row.password && row.active != 0
    ensures Decide(None, other) == Decide(Some(row), typed) == InvalidCredentials
  {
  }

  /** Once the app has written a quota of zero, the account is refused with
      "no remaining uses", even with its right password. */
  lemma ExhaustedAccountRefused(rows: Table, username: string, usesAvailable: int, password: string)
    requires username in rows && usesAvailable <= 0
    ensures Decide(Lookup(AfterUpdate(rows, username, usesAvailable, ActiveFlag(usesAvailable)), username), password)
         == NoRemainingUses
  {
  }

  // ---------------------------------------------------------------------
  // Submitting a text

  datatype SubmitOutcome =
    | QuotaReached                             // the form is replaced by a warning
    | NotSubmitted                             // no text: nothing happens
    | Detected(emoji: string, emotion: string)   // the classifier answered
    | ClassificationFailed                     // the classifier raised

  /** The page state of one visitor (`st.session_state`). */
  class Session {
    var authenticated: bool
    var username: string
    var remainingQueries: int

    /** A visitor's first run of `main`: not authenticated. */
    constructor ()
      ensures !authenticated
    {
      authenticated := false;
      username := "";
      remainingQueries := 0;
    }

    /** The cached counter agrees with the account's stored quota. */
    ghost predicate Synced(db: UserTable)
      reads this, db
    {
      authenticated ==> username in db.rows && db.rows[username].usesAvailable == remainingQueries
    }

    /** `login` after the form was submitted: reads the account's row and
      applies `Decide`. Success caches the stored quota in the session;
      failure leaves the session as it was. The table is only read. */
    method Login(db: UserTable, name: string, password: string) returns (outcome: LoginOutcome)
      modifies this
      ensures unchanged(db)
      ensures outcome == Decide(Lookup(db.rows, name), password)
      ensures outcome.LoggedIn? ==>
                authenticated && username == name && remainingQueries == db.rows[name].usesAvailable
      ensures outcome.LoggedIn? ==> Synced(db)
      ensures !outcome.LoggedIn? ==>
                authenticated == old(authenticated) && username == old(username)
                && remainingQueries == old(remainingQueries)
    {
      var found := db.Select(name);
      outcome := Decide(found, password);
      if outcome.LoggedIn? {
        authenticated := true;
        remainingQueries := outcome.usesAvailable;
        username := name;
      }
    }

    /** The authenticated branch of `main` for one run with `text` in the
      form. With uses left and a non-empty text, the session counter drops
      by one and is written, with its active flag, to this user's row before
      the classifier is called; `response` is that call's result, which
      affects only what is shown. The value written is the session's cached
      counter, whatever the row held. */
    method Submit(db: UserTable, text: string, response: Option<string>) returns (outcome: SubmitOutcome)
      requires authenticated
      modifies this, db
      ensures authenticated && username == old(username)
      ensures old(remainingQueries) <= 0 ==>
                outcome == QuotaReached && remainingQueries == old(remainingQueries) && db.rows == old(db.rows)
      ensures old(remainingQueries) > 0 && text == [] ==>
                outcome == NotSubmitted && remainingQueries == old(remainingQueries) && db.rows == old(db.rows)
      ensures old(remainingQueries) > 0 && text != [] ==>
                && remainingQueries == old(remainingQueries) - 1
                && db.rows == AfterUpdate(old(db.rows), username, remainingQueries, ActiveFlag(remainingQueries))
                && (response.Some? ==> outcome == Detected(EmojiFor(response.value), response.value))
                && (response.None? ==> outcome == ClassificationFailed)
      ensures remainingQueries < old(remainingQueries) ==> remainingQueries >= 0
      ensures old(Synced(db)) ==> Synced(db)
      ensures QuotaConsistent(old(db.rows)) ==> QuotaConsistent(db.rows)
    {
      if remainingQueries > 0 {
        if text != [] {
          remainingQueries := remainingQueries - 1;
          db.Update(username, remainingQueries, ActiveFlag(remainingQueries));
          if QuotaConsistent(old(db.rows)) {
            QuotaWriteKeepsConsistent(old(db.rows), username, remainingQueries);
          }
          match response {
            case Some(answer) => outcome := Detected(EmojiFor(answer), answer);
            case None => outcome := ClassificationFailed;
          }
        } else {
          outcome := NotSubmitted;
        }
      } else {
        outcome := QuotaReached;
      }
    }
  }

  /** A classifier call that raises refunds nothing: two submissions of one
      text from equal states, one whose call answers and one whose call
      raises, leave equal tables and equal session counters. */
  method FailedCallKeepsCharge(answered: Session, answeredDb: UserTable, raised: Session, raisedDb: UserTable,
                               text: string, answer: string)
    returns (shown: SubmitOutcome, failed: SubmitOutcome)
    requires answered != raised && answeredDb != raisedDb
    requires answered.authenticated && raised.authenticated
    requires answered.username == raised.username && answered.remainingQueries == raised.remainingQueries
    requires answeredDb.rows == raisedDb.rows
    modifies answered, answeredDb, raised, raisedDb
    ensures answeredDb.rows == raisedDb.rows && answered.remainingQueries == raised.remainingQueries
    ensures old(answered.remainingQueries) > 0 && text != [] ==>
              shown == Detected(EmojiFor(answer), answer) && failed == ClassificationFailed
              && raised.remainingQueries == old(raised.remainingQueries) - 1
  {
    shown := answered.Submit(answeredDb, text, Some(answer));
    failed := raised.Submit(raisedDb, text, None);
  }

  /** A one-use account: the visitor logs in, spends the use, is then shown
      the exhaustion warning without a classifier call, and a later login with
      the right password is refused as exhausted. */
  method LastUseScenario(password: string, text: string, response: Option<string>)
    requires text != []
  {
    var db := new UserTable();
    db.InsertOrIgnore(SeedRow("demo1", password, 1, 1));
    var session := new Session();
    var login := session.Login(db, "demo1", password);
    assert login == LoggedIn(1);
    var first := session.Submit(db, text, response);
    assert db.rows["demo1"] == Row(password, 0, 0);
    var second := session.Submit(db, text, response);
    assert second == QuotaReached;
    var again := new Session();
    var relogin := again.Login(db, "demo1", password);
    assert relogin == NoRemainingUses && !again.authenticated;
  }
}
