/** The bot's own account table in app.js: one settings record per account met on the
    chain, separate from the checkers' ledgers, and the replies waiting to be posted. */
module AppState {
  import opened Ledger

  /** `{ mode, ignored, delay }` */
  datatype Settings = Settings(mode: Mode, ignored: seq<string>, delay: nat)

  /** The record `addUsers` creates: regular mode, nothing ignored, no delay. */
  const Fresh := Settings(Regular, [], 0)

  type Accounts = map<string, Settings>

  /** A field of an operation: a string, or absent (`undefined`). */
  datatype Field = Given(name: string) | Absent

  /** The property key an object lookup uses: an absent field becomes the key "undefined". */
  function KeyOf(f: Field): string {
    match f
    case Given(name) => name
    case Absent => "undefined"
  }

  /** One entry of the `comments` queue: `[message, author, permlink, title]`. */
  datatype Entry = Entry(message: string, author: string, permlink: string, title: string)

  /** `users[name] = s` on an account that has a record: the keys stay and no other
      record changes. */
  function Update(accounts: Accounts, name: string, s: Settings): (r: Accounts)
    requires name in accounts
    ensures r.Keys == accounts.Keys
    ensures r[name] == s
    ensures forall k :: k in accounts && k != name ==> r[k] == accounts[k]
  {
    accounts[name := s]
  }

  /** `addUsers(...encounteredUsers)`: each field that is not '' and has no record yet
      gets a fresh one. */
  function AddUsers(accounts: Accounts, fields: seq<Field>): Accounts
    decreases |fields|
  {
    if |fields| == 0 then accounts
    else
      var key := KeyOf(fields[0]);
      var next := if key != "" && key !in accounts then accounts[key := Fresh] else accounts;
      AddUsers(next, fields[1..])
  }

  /** Registration keeps every record, gives a record to every field that is not '',
      and creates nothing but fresh records for the fields' keys. */
  lemma {:induction false} AddUsersSpec(accounts: Accounts, fields: seq<Field>)
    ensures forall k :: k in accounts ==> k in AddUsers(accounts, fields) && AddUsers(accounts, fields)[k] == accounts[k]
    ensures forall f :: f in fields && KeyOf(f) != "" ==> KeyOf(f) in AddUsers(accounts, fields)
    ensures forall k :: k in AddUsers(accounts, fields) && k !in accounts ==>
      AddUsers(accounts, fields)[k] == Fresh && k != "" && exists f :: f in fields && KeyOf(f) == k
    decreases |fields|
  {
    if |fields| > 0 {
      var key := KeyOf(fields[0]);
      var next := if key != "" && key !in accounts then accounts[key := Fresh] else accounts;
      AddUsersSpec(next, fields[1..]);
      forall k | k in AddUsers(accounts, fields) && k !in accounts
        ensures exists f :: f in fields && KeyOf(f) == k
      {
        if k in next {
          assert KeyOf(fields[0]) == k;
        } else {
          var f :| f in fields[1..] && KeyOf(f) == k;
          assert f in fields;
        }
      }
    }
  }

  /** Registering the same fields twice changes nothing the second time. */
  lemma AddUsersIdempotent(accounts: Accounts, fields: seq<Field>)
    ensures AddUsers(AddUsers(accounts, fields), fields) == AddUsers(accounts, fields)
  {
    var once := AddUsers(accounts, fields);
    AddUsersSpec(accounts, fields);
    AddUsersSpec(once, fields);
  }
}
