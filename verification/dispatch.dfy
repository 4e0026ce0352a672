/** The stream callback of app.js (`stream`): every operation registers the accounts it
    names; a comment under one of the bot's own comments is read as a command, any other
    comment may be checked for wrong mentions, and a downvote of the bot turns the voter's
    checking off. */
module Dispatch {
  import opened Helper
  import Ledger
  import opened AppState
  import opened Command

  /** The bot's own account. */
  const Bot := "checky"

  /** An operation of the stream: its kind and the fields the callback reads. Kinds other
      than `comment` and `vote` only carry their named fields, some of which may be missing. */
  datatype Operation =
    | CommentOp(author: string, parentAuthor: string, body: string, permlink: string)
    | VoteOp(voter: string, votedAuthor: string, weight: int)
    | OtherOp(kind: string, fields: map<string, string>)

  /** The fields whose accounts each other kind of operation registers, in the order they
      are passed to `addUsers`; an unlisted kind registers nothing. */
  function Referenced(kind: string): seq<string> {
    if kind == "delegate_vesting_shares" then ["delegator", "delegatee"]
    else if kind == "escrow_release" then ["from", "to", "agent", "who", "receiver"]
    else if kind == "escrow_approve" || kind == "escrow_dispute" then ["from", "to", "agent", "who"]
    else if kind == "escrow_transfer" then ["from", "to", "agent"]
    else if kind in ["fill_transfer_from_savings", "transfer", "transfer_to_vesting", "transfer_to_savings", "transfer_from_savings"] then ["from", "to"]
    else if kind == "fill_vesting_withdraw" || kind == "set_withdraw_vesting_route" then ["from_account", "to_account"]
    else if kind == "fill_order" then ["current_owner", "open_owner"]
    else if kind == "request_account_recovery" then ["recovery_account", "account_to_recover"]
    else if kind == "change_recovery_account" then ["account_to_recover", "new_recovery_account"]
    else if kind == "account_create" || kind == "account_create_with_delegation" then ["creator", "new_account_name"]
    else if kind == "account_witness_vote" then ["account", "witness"]
    else if kind == "account_witness_proxy" then ["account", "proxy"]
    else if kind in ["account_update", "claim_reward_balance", "decline_voting_rights", "return_vesting_delegation", "withdraw_vesting"] then ["account"]
    else if kind in ["convert", "fill_convert_request", "interest", "limit_order_create", "limit_order_create2", "limit_order_cancel", "liquidity_reward", "shutdown_witness", "witness_update"] then ["owner"]
    else if kind in ["author_reward", "comment_options", "comment_payout_update", "comment_reward", "delete_comment"] then ["author"]
    else if kind == "curation_reward" then ["curator", "comment_author"]
    else if kind == "feed_publish" then ["publisher"]
    else if kind == "recover_account" then ["account_to_recover"]
    else if kind == "cancel_transfer_from_savings" then ["from"]
    else if kind == "comment_benefactor_reward" then ["benefactor", "author"]
    else if kind == "producer_reward" then ["producer"]
    else if kind == "prove_authority" then ["challenged"]
    else []
  }

  /** `operation[1][name]`: absent when the operation has no such field. */
  function FieldOf(fields: map<string, string>, name: string): Field {
    if name in fields then Given(fields[name]) else Absent
  }

  function FieldsOf(fields: map<string, string>, names: seq<string>): (r: seq<Field>)
    ensures |r| == |names|
    ensures forall i :: 0 <= i < |names| ==> r[i] == FieldOf(fields, names[i])
  {
    seq(|names|, i requires 0 <= i < |names| => FieldOf(fields, names[i]))
  }

  /** What the callback leaves behind for one operation: the accounts, the reply to a
      command it queued, if any, and whether it asked `processPost` to check the comment;
      or an exception (a record read that is not there, or a command that throws), which
      leaves the accounts that `addUsers` registered before it. */
  datatype Handled = Handled(accounts: Accounts, reply: Option<Reply>, check: bool) | Fault(accounts: Accounts)

  /** The entries the callback pushes to the reply queue: a command's reply goes to the
      comment that held the command. */
  function Queued(h: Handled, author: string, permlink: string): seq<Entry> {
    if h.Handled? && h.reply.Some? then [ToEntry(h.reply.value, author, permlink)] else []
  }

  /** The checking rule: a top-level post unless the author turned checking off, and
      any comment in advanced mode. */
  predicate ShouldCheck(mode: Ledger.Mode, parentAuthor: string) {
    (parentAuthor == "" && mode != Ledger.Off) || mode == Ledger.Advanced
  }

  /** `addUsers(author, parentAuthor)` */
  function RegisterPair(accounts: Accounts, a: string, b: string): Accounts {
    AddUsers(accounts, [Given(a), Given(b)])
  }

  /** Registration of two names keeps every record and gives both a record unless they
      are '', a fresh one when they had none. */
  lemma RegisterPairSpec(accounts: Accounts, a: string, b: string)
    ensures var r := RegisterPair(accounts, a, b);
      && (forall k :: k in accounts ==> k in r && r[k] == accounts[k])
      && (a != "" ==> a in r) && (b != "" ==> b in r)
      && (forall k :: k in r && k !in accounts ==> r[k] == Fresh && (k == a || k == b))
  {
    var fs := [Given(a), Given(b)];
    AddUsersSpec(accounts, fs);
    assert fs[0] in fs && fs[1] in fs;
    forall k | k in RegisterPair(accounts, a, b) && k !in accounts ensures k == a || k == b {
      var f :| f in fs && KeyOf(f) == k;
    }
  }

  /** A reply to the bot: the command it holds, if any, run for its author. */
  function OnCommand(registered: Accounts, author: string, body: string): Handled {
    match ParseCommand(body)
    case None => Handled(registered, None, false)
    case Some(cmd) =>
      match Process(registered, cmd, author)
      case Throws => Fault(registered)
      case Done(after, reply) => Handled(after, Some(reply), false)
  }

  /** The `comment` case. */
  function OnComment(accounts: Accounts, author: string, parentAuthor: string, body: string): Handled {
    var registered := RegisterPair(accounts, author, parentAuthor);
    if parentAuthor == Bot then OnCommand(registered, author, body)
    else if author !in registered then Fault(registered)
    else Handled(registered, None, ShouldCheck(registered[author].mode, parentAuthor))
  }

  /** The `vote` case. */
  function OnVote(accounts: Accounts, voter: string, votedAuthor: string, weight: int): Handled {
    var registered := RegisterPair(accounts, voter, votedAuthor);
    if votedAuthor == Bot && weight < 0 then
      if voter !in registered then Fault(registered)
      else Handled(Update(registered, voter, registered[voter].(mode := Ledger.Off)), None, false)
    else Handled(registered, None, false)
  }

  /** Every other kind: `addUsers` of the named fields. */
  function OnOther(accounts: Accounts, fields: map<string, string>, names: seq<string>): Handled {
    Handled(AddUsers(accounts, FieldsOf(fields, names)), None, false)
  }

  /** One operation of the stream. */
  function Step(accounts: Accounts, op: Operation): Handled {
    match op
    case CommentOp(author, parentAuthor, body, _) => OnComment(accounts, author, parentAuthor, body)
    case VoteOp(voter, votedAuthor, weight) => OnVote(accounts, voter, votedAuthor, weight)
    case OtherOp(kind, fields) => OnOther(accounts, fields, Referenced(kind))
  }

  /** A reply to the bot is never checked for mentions: it is read as a command when its
      body has the command form and otherwise only registers. A command queues exactly
      one reply, the one `processCommand` gives for the registered accounts. */
  lemma CommandRouting(accounts: Accounts, author: string, body: string)
    ensures var r := OnComment(accounts, author, Bot, body);
      var registered := RegisterPair(accounts, author, Bot);
      && (r.Handled? ==> !r.check)
      && (ParseCommand(body).None? ==> r == Handled(registered, None, false))
      && (ParseCommand(body).Some? && r.Handled? ==>
            && Process(registered, ParseCommand(body).value, author).Done?
            && r.accounts == Process(registered, ParseCommand(body).value, author).accounts
            && r.reply == Some(Process(registered, ParseCommand(body).value, author).reply))
  {
    assert OnComment(accounts, author, Bot, body) == OnCommand(RegisterPair(accounts, author, Bot), author, body);
  }

  /** With an author that is not '' (every author on the chain), a reply to the bot only
      fails on a mode command whose word names no mode. */
  lemma CommandFault(accounts: Accounts, author: string, body: string)
    requires author != ""
    ensures OnComment(accounts, author, Bot, body).Fault? ==>
      OnComment(accounts, author, Bot, body).accounts == RegisterPair(accounts, author, Bot)
    ensures OnComment(accounts, author, Bot, body).Fault? <==>
      ParseCommand(body).Some? && KindOf(ParseCommand(body).value.name) == ModeCmd
      && ParseCommand(body).value.param.Some? && ModeWord(Trim(ParseCommand(body).value.param.value)).None?
  {
    var registered := RegisterPair(accounts, author, Bot);
    RegisterPairSpec(accounts, author, Bot);
    assert OnComment(accounts, author, Bot, body) == OnCommand(registered, author, body);
    if ParseCommand(body).Some? {
      ProcessThrows(registered, ParseCommand(body).value, author);
    }
  }

  /** Any other comment queues nothing, only registers, and is checked exactly when it is
      a top-level post and its author has not turned checking off, or its author is in
      advanced mode; an author met for the first time is in regular mode. */
  lemma PostRouting(accounts: Accounts, author: string, parentAuthor: string, body: string)
    requires parentAuthor != Bot && author != ""
    ensures var r := OnComment(accounts, author, parentAuthor, body);
      && r.Handled?
      && r.reply == None
      && r.accounts == RegisterPair(accounts, author, parentAuthor)
      && (r.check <==> if author in accounts then ShouldCheck(accounts[author].mode, parentAuthor) else parentAuthor == "")
  {
    RegisterPairSpec(accounts, author, parentAuthor);
  }

  /** A downvote of the bot turns the voter's checking off and changes nothing else:
      the voter's ignored names and delay stay, and every other record is what
      registration leaves. */
  lemma DownvoteSpec(accounts: Accounts, voter: string, weight: int)
    requires weight < 0 && voter != ""
    ensures var r := OnVote(accounts, voter, Bot, weight);
      var registered := RegisterPair(accounts, voter, Bot);
      && r.Handled? && r.reply == None && !r.check
      && r.accounts.Keys == registered.Keys
      && r.accounts[voter].mode == Ledger.Off
      && r.accounts[voter].ignored == registered[voter].ignored
      && r.accounts[voter].delay == registered[voter].delay
      && (forall k :: k in registered && k != voter ==> r.accounts[k] == registered[k])
  {
    RegisterPairSpec(accounts, voter, Bot);
  }

  /** Any other vote only registers the voter and the voted author. */
  lemma OtherVote(accounts: Accounts, voter: string, votedAuthor: string, weight: int)
    requires votedAuthor != Bot || weight >= 0
    ensures OnVote(accounts, voter, votedAuthor, weight) == Handled(RegisterPair(accounts, voter, votedAuthor), None, false)
  {
  }

  /** Every other kind registers the accounts in its named fields, `undefined` for a
      field it lacks, and nothing else. */
  lemma OtherRegisters(accounts: Accounts, fields: map<string, string>, names: seq<string>)
    ensures var r := OnOther(accounts, fields, names);
      && r.Handled? && r.reply == None && !r.check
      && (forall k :: k in accounts ==> k in r.accounts && r.accounts[k] == accounts[k])
      && (forall name :: name in names && KeyOf(FieldOf(fields, name)) != "" ==> KeyOf(FieldOf(fields, name)) in r.accounts)
      && (forall k :: k in r.accounts && k !in accounts ==>
            r.accounts[k] == Fresh && exists name :: name in names && KeyOf(FieldOf(fields, name)) == k)
  {
    var fs := FieldsOf(fields, names);
    AddUsersSpec(accounts, fs);
    forall name | name in names && KeyOf(FieldOf(fields, name)) != ""
      ensures KeyOf(FieldOf(fields, name)) in AddUsers(accounts, fs)
    {
      var i :| 0 <= i < |names| && names[i] == name;
      assert fs[i] in fs;
    }
    forall k | k in AddUsers(accounts, fs) && k !in accounts
      ensures exists name :: name in names && KeyOf(FieldOf(fields, name)) == k
    {
      var f :| f in fs && KeyOf(f) == k;
      var i :| 0 <= i < |fs| && fs[i] == f;
      assert names[i] in names;
    }
  }

  /** A command changes no record but its author's, whether it completes or throws. */
  lemma CommandFrame(registered: Accounts, author: string, body: string)
    ensures var r := OnCommand(registered, author, body);
      && r.accounts.Keys == registered.Keys
      && (forall k :: k in registered && k != author ==> r.accounts[k] == registered[k])
  {
    if ParseCommand(body).Some? {
      ProcessFrame(registered, ParseCommand(body).value, author);
    }
  }

  /** No operation removes an account, even one that throws, and an operation changes no record other than
      that of the comment's author or of the voter: the others only gain the fresh records
      registration adds. */
  lemma StepFrame(accounts: Accounts, op: Operation)
    ensures var r := Step(accounts, op);
      && (forall k :: k in accounts ==> k in r.accounts)
      && (forall k :: k in accounts && k != Actor(op) ==> r.accounts[k] == accounts[k])
      && (forall k :: k in r.accounts && k !in accounts ==> r.accounts[k] == Fresh || k == Actor(op))
  {
    match op
    case CommentOp(author, parentAuthor, body, _) =>
      RegisterPairSpec(accounts, author, parentAuthor);
      if parentAuthor == Bot {
        CommandFrame(RegisterPair(accounts, author, parentAuthor), author, body);
      }
    case VoteOp(voter, votedAuthor, weight) =>
      RegisterPairSpec(accounts, voter, votedAuthor);
    case OtherOp(kind, fields) =>
      OtherRegisters(accounts, fields, Referenced(kind));
  }

  /** The account whose record an operation may rewrite: a comment's author or a voter. */
  function Actor(op: Operation): string {
    match op
    case CommentOp(author, _, _, _) => author
    case VoteOp(voter, _, _) => voter
    case OtherOp(_, _) => ""
  }
}
