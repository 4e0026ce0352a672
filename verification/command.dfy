/** The commands users write in replies to the bot (app.js `processCommand`): the
    pattern `^\s*!([A-Za-z]+)(?:\s+(.+))?` that recognises them, the reading of the
    name lists they carry, and their effect on the author's settings together with the
    one reply each of them queues. */
module Command {
  import opened JsText
  import opened Helper
  import opened Ledger
  import opened AppState

  /** A recognised command: the letters after `!` and the text after the white space
      that follows them, if any. */
  datatype Command = Command(name: string, param: Option<string>)

  /** Length of the run of ASCII letters `s` starts with. */
  function LetterRun(s: string): (n: nat)
    ensures n <= |s|
    ensures forall k :: 0 <= k < n ==> IsAsciiLetter(s[k])
    ensures n == |s| || !IsAsciiLetter(s[n])
  {
    if |s| > 0 && IsAsciiLetter(s[0]) then 1 + LetterRun(s[1..]) else 0
  }

  /** Length of the run `.+` takes from the start of `s`: characters up to a line terminator. */
  function PlainRun(s: string): (n: nat)
    ensures n <= |s|
    ensures forall k :: 0 <= k < n ==> !IsLineTerminator(s[k])
    ensures n == |s| || IsLineTerminator(s[n])
  {
    if |s| > 0 && !IsLineTerminator(s[0]) then 1 + PlainRun(s[1..]) else 0
  }

  /** The largest `k` with `1 <= k < n` and `s[k]` not a line terminator, 0 if none:
      where `\s+` hands back to `.+` when the white space reaches the end of the text. */
  function LastPlain(s: string, n: nat): (k: nat)
    requires n <= |s|
    ensures k < n || k == 0
    ensures k > 0 ==> !IsLineTerminator(s[k])
    ensures forall j :: k < j < n && j >= 1 ==> IsLineTerminator(s[j])
  {
    if n <= 1 then 0
    else if !IsLineTerminator(s[n - 1]) then n - 1
    else LastPlain(s, n - 1)
  }

  /** The optional group `(?:\s+(.+))?` at the start of `rest`, with the greedy
      backtracking of the two quantifiers. */
  function Param(rest: string): (r: Option<string>)
    ensures r.Some? ==> |r.value| > 0 && NoLineTerminator(r.value)
  {
    var n := LeadingSpaces(rest);
    if n == 0 then None
    else
      var k := if n < |rest| then n else LastPlain(rest, n);
      if k == 0 then None
      else
        var m := PlainRun(rest[k..]);
        assert m > 0;
        Some(rest[k..k + m])
  }

  /** `/^(?:\s*)!([A-Za-z]+)(?:\s+(.+))?/.exec(body)` */
  function ParseCommand(body: string): (r: Option<Command>)
    ensures r.Some? ==> |r.value.name| > 0 && forall k :: 0 <= k < |r.value.name| ==> IsAsciiLetter(r.value.name[k])
    ensures r.Some? && r.value.param.Some? ==> |r.value.param.value| > 0 && NoLineTerminator(r.value.param.value)
  {
    var i := LeadingSpaces(body);
    if i == |body| || body[i] != '!' then None
    else
      var after := body[i + 1..];
      var n := LetterRun(after);
      if n == 0 then None
      else Some(Command(after[..n], Param(after[n..])))
  }

  /** A reply is a command exactly when, after white space, it starts with `!` and a letter. */
  lemma ParseCommandSome(body: string)
    ensures ParseCommand(body).Some? <==>
      exists i :: 0 <= i < |body| - 1 && AllSpace(body[..i]) && body[i] == '!' && IsAsciiLetter(body[i + 1])
  {
    var i := LeadingSpaces(body);
    if j :| 0 <= j < |body| - 1 && AllSpace(body[..j]) && body[j] == '!' && IsAsciiLetter(body[j + 1]) {
      assert forall k :: 0 <= k < j ==> IsSpace(body[..j][k]);
      LeadingSpacesUnique(body, j);
      assert body[i + 1..][0] == body[i + 1];
    }
    if ParseCommand(body).Some? {
      assert body[i + 1..][0] == body[i + 1];
    }
  }

  /** `(a + b)[|a|..] == b` */
  lemma DropPrefix<T>(a: seq<T>, b: seq<T>)
    ensures (a + b)[|a|..] == b
  {
  }

  lemma LetterRunUnique(s: string, n: nat)
    requires n <= |s|
    requires forall k :: 0 <= k < n ==> IsAsciiLetter(s[k])
    requires n == |s| || !IsAsciiLetter(s[n])
    ensures LetterRun(s) == n
  {
    if n > 0 {
      LetterRunUnique(s[1..], n - 1);
    }
  }

  /** After white space, `!` and a name, the name is read whole and the rest goes to the
      parameter group. */
  lemma ParseShape(ws: string, name: string, rest: string)
    requires AllSpace(ws)
    requires |name| > 0 && forall k :: 0 <= k < |name| ==> IsAsciiLetter(name[k])
    requires |rest| == 0 || !IsAsciiLetter(rest[0])
    ensures ParseCommand(ws + ("!" + (name + rest))) == Some(Command(name, Param(rest)))
  {
    var after := name + rest;
    var body := ws + ("!" + after);
    DropPrefix(ws, "!" + after);
    DropPrefix("!", after);
    assert body[|ws|] == '!';
    LeadingSpacesUnique(body, |ws|);
    assert body[|ws| + 1..] == after;
    LetterRunUnique(after, |name|);
    DropPrefix(name, rest);
    assert after[..|name|] == name;
  }

  /** White space followed by a parameter that starts with a visible character and runs to
      the end of the line is read back as that parameter. */
  lemma ParamWritten(sep: string, param: string, tail: string)
    requires AllSpace(sep) && |sep| > 0
    requires |param| > 0 && NoLineTerminator(param) && !IsSpace(param[0])
    requires |tail| == 0 || IsLineTerminator(tail[0])
    ensures Param(sep + (param + tail)) == Some(param)
  {
    var from := param + tail;
    var rest := sep + from;
    assert rest[|sep|] == param[0];
    LeadingSpacesUnique(rest, |sep|);
    DropPrefix(sep, from);
    PlainRunUnique(from, |param|);
    assert from[..|param|] == param;
    assert rest[|sep|..|sep| + |param|] == param;
  }

  /** A command written as `!name`, white space and a parameter is read back as that name
      and that parameter. */
  lemma ParseCommandWritten(ws: string, name: string, sep: string, param: string, tail: string)
    requires AllSpace(ws) && AllSpace(sep) && |sep| > 0
    requires |name| > 0 && forall k :: 0 <= k < |name| ==> IsAsciiLetter(name[k])
    requires |param| > 0 && NoLineTerminator(param) && !IsSpace(param[0])
    requires |tail| == 0 || IsLineTerminator(tail[0])
    ensures ParseCommand(ws + ("!" + (name + (sep + (param + tail))))) == Some(Command(name, Some(param)))
  {
    ParseShape(ws, name, sep + (param + tail));
    ParamWritten(sep, param, tail);
  }

  /** A command with nothing after its name, or something that is neither a letter nor
      white space, has no parameter. */
  lemma ParseCommandBare(ws: string, name: string, tail: string)
    requires AllSpace(ws)
    requires |name| > 0 && forall k :: 0 <= k < |name| ==> IsAsciiLetter(name[k])
    requires |tail| == 0 || (!IsAsciiLetter(tail[0]) && !IsSpace(tail[0]))
    ensures ParseCommand(ws + ("!" + (name + tail))) == Some(Command(name, None))
  {
    ParseShape(ws, name, tail);
    LeadingSpacesUnique(tail, 0);
  }

  lemma PlainRunUnique(s: string, n: nat)
    requires n <= |s|
    requires forall k :: 0 <= k < n ==> !IsLineTerminator(s[k])
    requires n == |s| || IsLineTerminator(s[n])
    ensures PlainRun(s) == n
  {
    if n > 0 {
      PlainRunUnique(s[1..], n - 1);
    }
  }

  /** `mention.replace('@', '').toLowerCase()` */
  function NormalizeName(w: string): string {
    ToLower(ReplaceFirst(w, '@', ""))
  }

  /** `param.split(/[\s,]+/).filter(m => m !== '').map(NormalizeName)` */
  function SplitNames(p: string): (r: seq<string>)
    ensures |r| == |Tokens(p)|
  {
    NormalizeAll(Tokens(p))
  }

  /** `.map(NormalizeName)` */
  function NormalizeAll(ts: seq<string>): (r: seq<string>)
    ensures |r| == |ts|
  {
    seq(|ts|, i requires 0 <= i < |ts| => NormalizeName(ts[i]))
  }

  /** A name as users are told to write it: not empty, lower case, no `@`, no separator. */
  predicate PlainName(w: string) {
    |w| > 0 && forall k :: 0 <= k < |w| ==> !IsNameSeparator(w[k]) && w[k] != '@' && !('A' <= w[k] <= 'Z')
  }

  lemma NormalizePlain(w: string)
    requires PlainName(w)
    ensures NormalizeName(w) == w
  {
    assert ReplaceFirst(w, '@', "") == w;
  }

  /** Separators at the front of a text add no token. */
  lemma {:induction false} TokensAfterSeparators(sep: string, b: string)
    requires forall k :: 0 <= k < |sep| ==> IsNameSeparator(sep[k])
    ensures Tokens(sep + b) == Tokens(b)
    decreases |sep|
  {
    if |sep| > 0 {
      assert (sep + b)[0] == sep[0];
      assert (sep + b)[1..] == sep[1..] + b;
      TokensAfterSeparators(sep[1..], b);
    } else {
      assert sep + b == b;
    }
  }

  /** Names joined by any run of separators (a space, the `", "` of the bot's own
      confirmations) are read back as written. */
  lemma {:induction false} SplitJoin(names: seq<string>, sep: string)
    requires |sep| > 0 && forall k :: 0 <= k < |sep| ==> IsNameSeparator(sep[k])
    requires forall i :: 0 <= i < |names| ==> PlainName(names[i])
    ensures SplitNames(Join(names, sep)) == names
    decreases |names|
  {
    if |names| == 1 {
      SingleToken(names[0]);
      NormalizePlain(names[0]);
    } else if |names| > 1 {
      SplitJoin(names[1..], sep);
      TokensJoinStep(names, sep);
      NormalizePlain(names[0]);
      SplitNamesCons(Join(names, sep), names[0], Join(names[1..], sep));
      assert names == [names[0]] + names[1..];
    }
  }

  /** The first name of a joined list is its first token. */
  lemma TokensJoinStep(names: seq<string>, sep: string)
    requires |names| > 1
    requires |sep| > 0 && forall k :: 0 <= k < |sep| ==> IsNameSeparator(sep[k])
    requires PlainName(names[0])
    ensures Tokens(Join(names, sep)) == [names[0]] + Tokens(Join(names[1..], sep))
  {
    assert Join(names, sep) == names[0] + sep + Join(names[1..], sep);
    TokensAfterWord(names[0], sep, Join(names[1..], sep));
  }

  /** A name followed by separators is the first token of what follows. */
  lemma TokensAfterWord(w: string, sep: string, rest: string)
    requires |sep| > 0 && forall k :: 0 <= k < |sep| ==> IsNameSeparator(sep[k])
    requires PlainName(w)
    ensures Tokens(w + sep + rest) == [w] + Tokens(rest)
  {
    assert sep == [sep[0]] + sep[1..];
    assert w + sep + rest == w + [sep[0]] + (sep[1..] + rest);
    TokensSplit(w, sep[0], sep[1..] + rest);
    TokensAfterSeparators(sep[1..], rest);
    SingleToken(w);
  }

  /** A text whose first token is already normal reads as that token before the rest. */
  lemma SplitNamesCons(p: string, first: string, rest: string)
    requires Tokens(p) == [first] + Tokens(rest)
    requires NormalizeName(first) == first
    ensures SplitNames(p) == [first] + SplitNames(rest)
  {
    SplitNamesTail(p, rest);
    var r := SplitNames(p);
    assert r == [r[0]] + r[1..];
  }

  lemma SplitNamesTail(p: string, rest: string)
    requires |Tokens(p)| > 0 && Tokens(p)[1..] == Tokens(rest)
    ensures SplitNames(p)[1..] == SplitNames(rest)
  {
    NormalizeAllTail(Tokens(p));
  }

  lemma NormalizeAllTail(ts: seq<string>)
    requires |ts| > 0
    ensures NormalizeAll(ts)[1..] == NormalizeAll(ts[1..])
  {
    forall i | 0 <= i < |ts| - 1 ensures NormalizeAll(ts)[i + 1] == NormalizeAll(ts[1..])[i] {
      assert ts[i + 1] == ts[1..][i];
    }
  }

  function ModeName(m: Mode): string {
    match m
    case Regular => "regular"
    case Advanced => "advanced"
    case Off => "off"
  }

  /** The words the mode commands accept, and the mode each selects. */
  function ModeWord(w: string): Option<Mode> {
    if w == "on" || w == "regular" || w == "normal" then Some(Regular)
    else if w == "advanced" || w == "plus" then Some(Advanced)
    else if w == "off" then Some(Off)
    else None
  }

  /** The reply a command queues; `Message` and `Title` give its exact text. */
  datatype Reply =
    | NoNamesToIgnore
    | Ignored(names: seq<string>, author: string)
    | NoNamesToUnignore
    | Unignored(names: seq<string>, author: string)
    | NoMode(command: string)
    | ModeSet(mode: Mode)
    | State(settings: Settings)
    | NoDelay(command: string)
    | BadDelay
    | DelaySet(delay: int)
    | Help
    | Unknown

  /** What a command does: the settings afterwards and the one reply it queues, or an
      exception (a missing record read, or the undefined name of the unknown-mode reply). */
  datatype Effect = Done(accounts: Accounts, reply: Reply) | Throws

  function Plural(n: int): string {
    if n != 1 then "s" else ""
  }

  function HelpText(): string {
    "#### Here are all the available commands:\n* **!delay** *minutes* **-** tells the bot to wait X minutes before checking your posts.\n* **!help** **-** gives a list of commands and their explanations.\n* **!ignore** *username1* *username2* **-** tells  the bot to ignore some usernames mentioned in your posts (useful to avoid the bot mistaking other social network accounts for Steem accounts).\n* **!mode** *[regular-advanced-off]* **-** sets the mentions checking to regular (only posts), advanced (posts and comments) or off (no checking). Alternatively, you can write *normal* or *on* instead of *regular*. You can also write *plus* instead of *advanced*.\n* **!off** **-** shortcut for **!mode off**.\n* **!on** **-** shortcut for **!mode on**.\n* **!state** **-** gives the state of your account (*regular*, *advanced* or *off*).\n* **!switch** *[regular-advanced-off]* **-** same as **!mode**.\n* **!unignore** *username1* *username2* **-** tells the bot to unignore some usernames mentioned in your posts.\n* **!wait** *minutes* - same as **!delay**.\n\n###### Any idea on how to improve this bot ? Please contact @ragepeanut on any of his posts or send him a direct message on discord (RagePeanut#8078)."
  }

  function IgnoredText(names: seq<string>): string {
    "The following mentions will now be ignored when made by you: " + Join(names, ", ")
      + ".\nIf for any reason you want to make @checky stop ignoring them, reply to any of my posts with `!unignore username1 username2 ...`."
  }

  function UnignoredText(names: seq<string>): string {
    "The following mentions will now be checked by @checky when made by you: " + Join(names, ", ")
      + ".\nIf for any reason you want to make @checky start ignoring them again, reply to any of my posts with `!ignore username1 username2 ...`."
  }

  function ModeSetText(m: Mode): string {
    match m
    case Regular => "Your account has been set to regular. You will now only get your mentions checked for posts you make."
    case Advanced => "Your account has been set to advanced. You will now get your mentions checked for posts and comments you make."
    case Off => "Your account has been set to off. None of your mentions will now be checked whatsoever."
  }

  function StateText(s: Settings): string {
    var ignored := if |s.ignored| > 0 then "The following mentions are being ignored by @checky: " + Join(s.ignored, ", ")
      else "No mentions are being ignored by @checky";
    "Your account is currently set to " + ModeName(s.mode) + ". Your posts are being checked "
      + IntToString(s.delay) + " minute" + Plural(s.delay) + " after being posted. " + ignored + "."
  }

  /** The unit after a delay: plural only above one, so a negative delay reads "minute" in
      the title. */
  function DelayUnit(v: int): string {
    " minute" + (if v > 1 then "s" else "")
  }

  function DelaySetText(v: int): string {
    if v > 0 then
      "The delay has been set to " + IntToString(v) + DelayUnit(v) + ". @checky will now wait " + IntToString(v) + DelayUnit(v) + " before checking your mentions."
    else "The delay has been set to " + IntToString(v) + " minutes. @checky will instantly check your mentions when you post."
  }

  /** The message text of each reply (the first element of the queued entry). */
  function Message(r: Reply): string {
    match r
    case NoNamesToIgnore => "You didn't specify any username to ignore. Please try again by using the format `!ignore username1 username2`."
    case Ignored(names, _) => IgnoredText(names)
    case NoNamesToUnignore => "You didn't specify any username to unignore. Please try again by using the format `!unignore username1 username2`."
    case Unignored(names, _) => UnignoredText(names)
    case NoMode(c) => "You didn't spectify any mode to switch to. Please try again by using `!" + c + " regular`, `!" + c + " advanced` or `!" + c + " off`."
    case ModeSet(m) => ModeSetText(m)
    case State(s) => StateText(s)
    case NoDelay(c) => "You didn't specify the delay. Please try again by using `!" + c + " minutes"
    case BadDelay => "You didn't correctly specify the delay. Please try again by using a number to represent the delay."
    case DelaySet(v) => DelaySetText(v)
    case Help => HelpText()
    case Unknown => "This command doesn't exist."
  }

  /** The title of each reply (the last element of the queued entry). */
  function Title(r: Reply): string {
    match r
    case NoNamesToIgnore => "No username specified"
    case Ignored(_, author) => "Added some ignored mentions for @" + author
    case NoNamesToUnignore => "No username specified"
    case Unignored(_, author) => "Removed some ignored mentions for @" + author
    case NoMode(_) => "No mode specified"
    case ModeSet(m) => "Account set to " + ModeName(m)
    case State(_) => "Account state"
    case NoDelay(_) => "No delay specified"
    case BadDelay => "Delay wrongly specified"
    case DelaySet(v) => "Delay set to " + IntToString(v) + DelayUnit(v)
    case Help => "Commands list"
    case Unknown => "Unknown command"
  }

  /** The `[message, author, permlink, title]` entry a reply is queued as. */
  function ToEntry(r: Reply, author: string, permlink: string): Entry {
    Entry(Message(r), author, permlink, Title(r))
  }

  /** The `case` labels of `processCommand`, the name each command is written with. */
  datatype Kind = IgnoreCmd | UnignoreCmd | OnOff | ModeCmd | StateCmd | DelayCmd | HelpCmd | UnknownCmd

  function KindOf(name: string): Kind {
    if name == "ignore" then IgnoreCmd
    else if name == "unignore" then UnignoreCmd
    else if name == "on" || name == "off" then OnOff
    else if name == "mode" || name == "switch" then ModeCmd
    else if name == "state" then StateCmd
    else if name == "wait" || name == "delay" then DelayCmd
    else if name == "help" then HelpCmd
    else UnknownCmd
  }

  /** Only the author's record can change, and no record appears or disappears. */
  predicate Framed(accounts: Accounts, e: Effect, author: string) {
    e.Done? ==>
      && e.accounts.Keys == accounts.Keys
      && forall k :: k in accounts && k != author ==> e.accounts[k] == accounts[k]
  }

  /** `processCommand(command, author, permlink)`; the permlink only addresses the reply. */
  function Process(accounts: Accounts, cmd: Command, author: string): Effect {
    match KindOf(cmd.name)
    case IgnoreCmd => IgnoreCommand(accounts, cmd.param, author)
    case UnignoreCmd => UnignoreCommand(accounts, cmd.param, author)
    case OnOff => SwitchMode(accounts, "mode", Some(cmd.name), author)
    case ModeCmd => SwitchMode(accounts, cmd.name, cmd.param, author)
    case StateCmd => if author !in accounts then Throws else Done(accounts, State(accounts[author]))
    case DelayCmd => DelayCommand(accounts, cmd.name, cmd.param, author)
    case HelpCmd => Done(accounts, Help)
    case UnknownCmd => Done(accounts, Unknown)
  }

  /** The `ignore` case: the names are merged into the author's list with `_.union`. */
  function IgnoreCommand(accounts: Accounts, param: Option<string>, author: string): (e: Effect)
    ensures Framed(accounts, e, author)
  {
    match param
    case None => Done(accounts, NoNamesToIgnore)
    case Some(p) =>
      var names := SplitNames(p);
      if author !in accounts then Throws
      else
        var rec := accounts[author];
        Done(Update(accounts, author, rec.(ignored := Merge([rec.ignored, names]))), Ignored(names, author))
  }

  /** The `unignore` case: `_.pull` of each name from the author's list. */
  function UnignoreCommand(accounts: Accounts, param: Option<string>, author: string): (e: Effect)
    ensures Framed(accounts, e, author)
  {
    match param
    case None => Done(accounts, NoNamesToUnignore)
    case Some(p) =>
      var names := SplitNames(p);
      if author !in accounts then Throws
      else
        var rec := accounts[author];
        Done(Update(accounts, author, rec.(ignored := PullEach(rec.ignored, names))), Unignored(names, author))
  }

  /** The `wait`/`delay` case. */
  function DelayCommand(accounts: Accounts, name: string, param: Option<string>, author: string): (e: Effect)
    ensures Framed(accounts, e, author)
  {
    match param
    case None => Done(accounts, NoDelay(name))
    case Some(p) =>
      match ParseInt(p)
      case NaN => Done(accounts, BadDelay)
      case Int(v) =>
        if author !in accounts then Throws
        else Done(Update(accounts, author, accounts[author].(delay := if v < 0 then -v else v)), DelaySet(v))
  }

  /** The `mode`/`switch` case, which `on` and `off` fall into with their own name as the
      parameter. */
  function SwitchMode(accounts: Accounts, name: string, param: Option<string>, author: string): (e: Effect)
    ensures Framed(accounts, e, author)
  {
    match param
    case None => Done(accounts, NoMode(name))
    case Some(p) =>
      match ModeWord(Trim(p))
      case None => Throws
      case Some(m) =>
        if author !in accounts then Throws
        else Done(Update(accounts, author, accounts[author].(mode := m)), ModeSet(m))
  }

  /** Whatever the command, the reply goes to the author's comment, and only the author's
      record can change; an existing record keeps its key. */
  lemma ProcessFrame(accounts: Accounts, cmd: Command, author: string)
    ensures Framed(accounts, Process(accounts, cmd, author), author)
  {
    var e := Process(accounts, cmd, author);
    match KindOf(cmd.name)
    case IgnoreCmd =>
      assert e == IgnoreCommand(accounts, cmd.param, author);
    case UnignoreCmd =>
      assert e == UnignoreCommand(accounts, cmd.param, author);
    case OnOff =>
      assert e == SwitchMode(accounts, "mode", Some(cmd.name), author);
    case ModeCmd =>
      assert e == SwitchMode(accounts, cmd.name, cmd.param, author);
    case DelayCmd =>
      assert e == DelayCommand(accounts, cmd.name, cmd.param, author);
    case StateCmd =>
    case HelpCmd =>
    case UnknownCmd =>
  }

  lemma IgnoreDispatch(accounts: Accounts, param: Option<string>, author: string)
    ensures Process(accounts, Command("ignore", param), author) == IgnoreCommand(accounts, param, author)
  {
    assert KindOf("ignore") == IgnoreCmd;
  }

  lemma UnignoreDispatch(accounts: Accounts, param: Option<string>, author: string)
    ensures Process(accounts, Command("unignore", param), author) == UnignoreCommand(accounts, param, author)
  {
    assert KindOf("unignore") == UnignoreCmd;
  }

  lemma DelayDispatch(accounts: Accounts, param: Option<string>, author: string)
    ensures Process(accounts, Command("delay", param), author) == DelayCommand(accounts, "delay", param, author)
  {
    assert KindOf("delay") == DelayCmd;
  }

  /** `!ignore` merges the names into the author's list: old names first, in order, then
      the new ones once each; the mode and the delay stay. */
  lemma IgnoreCommandSpec(accounts: Accounts, p: string, author: string)
    requires author in accounts && NoDup(accounts[author].ignored)
    ensures var e := IgnoreCommand(accounts, Some(p), author);
      && e.Done?
      && var before := accounts[author]; var after := e.accounts[author];
      && after.mode == before.mode && after.delay == before.delay
      && before.ignored <= after.ignored && NoDup(after.ignored)
      && (forall x :: x in after.ignored <==> x in before.ignored || x in SplitNames(p))
      && e.reply == Ignored(SplitNames(p), author)
  {
    MergeTwo(accounts[author].ignored, SplitNames(p));
  }

  /** `!unignore` removes every occurrence of the names and keeps the rest in order. */
  lemma UnignoreCommandSpec(accounts: Accounts, p: string, author: string)
    requires author in accounts
    ensures var e := UnignoreCommand(accounts, Some(p), author);
      && e.Done?
      && var before := accounts[author]; var after := e.accounts[author];
      && after.mode == before.mode && after.delay == before.delay
      && after.ignored == Without(before.ignored, SplitNames(p))
      && (forall x :: x in after.ignored <==> x in before.ignored && x !in SplitNames(p))
      && (NoDup(before.ignored) ==> NoDup(after.ignored))
      && e.reply == Unignored(SplitNames(p), author)
  {
    PullEachIsWithout(accounts[author].ignored, SplitNames(p));
    WithoutSpec(accounts[author].ignored, SplitNames(p));
  }

  /** `!unignore` with the parameter of an `!ignore` undoes it, less names that were
      ignored before. */
  lemma UnignoreAfterIgnore(accounts: Accounts, p: string, author: string)
    requires author in accounts && NoDup(accounts[author].ignored)
    ensures var once := Process(accounts, Command("ignore", Some(p)), author);
      once.Done? &&
      var twice := Process(once.accounts, Command("unignore", Some(p)), author);
      twice.Done? && twice.accounts[author].ignored == Without(accounts[author].ignored, SplitNames(p))
  {
    var names := SplitNames(p);
    var once := Process(accounts, Command("ignore", Some(p)), author);
    IgnoreDispatch(accounts, Some(p), author);
    IgnoreCommandSpec(accounts, p, author);
    assert once.accounts[author].ignored == Merge([accounts[author].ignored, names]);
    UnignoreDispatch(once.accounts, Some(p), author);
    UnignoreCommandSpec(once.accounts, p, author);
    WithoutAfterMerge(accounts[author].ignored, names);
  }

  /** `!ignore` written with plain names adds exactly those names. */
  lemma IgnoreWritten(accounts: Accounts, names: seq<string>, author: string)
    requires author in accounts && NoDup(accounts[author].ignored)
    requires forall i :: 0 <= i < |names| ==> PlainName(names[i])
    ensures var e := Process(accounts, Command("ignore", Some(Join(names, " "))), author);
      e.Done? && forall x :: x in e.accounts[author].ignored <==> x in accounts[author].ignored || x in names
  {
    IgnoreDispatch(accounts, Some(Join(names, " ")), author);
    IgnoreNames(accounts, names, author);
  }

  lemma IgnoreNames(accounts: Accounts, names: seq<string>, author: string)
    requires author in accounts && NoDup(accounts[author].ignored)
    requires forall i :: 0 <= i < |names| ==> PlainName(names[i])
    ensures var e := IgnoreCommand(accounts, Some(Join(names, " ")), author);
      e.Done? && forall x :: x in e.accounts[author].ignored <==> x in accounts[author].ignored || x in names
  {
    SplitJoinSpace(names);
    IgnoreCommandSpec(accounts, Join(names, " "), author);
  }

  /** Names joined by single spaces are read back as written. */
  lemma SplitJoinSpace(names: seq<string>)
    requires forall i :: 0 <= i < |names| ==> PlainName(names[i])
    ensures SplitNames(Join(names, " ")) == names
  {
    assert IsNameSeparator(" "[0]);
    SplitJoin(names, " ");
  }

  /** Without a parameter, `!ignore`, `!unignore`, the mode commands and the delay
      commands change nothing and answer with how to write them. */
  lemma MissingParameter(accounts: Accounts, name: string, author: string)
    requires KindOf(name) in {IgnoreCmd, UnignoreCmd, ModeCmd, DelayCmd}
    ensures var e := Process(accounts, Command(name, None), author);
      && e.Done? && e.accounts == accounts
      && e.reply == match KindOf(name)
           case IgnoreCmd => NoNamesToIgnore
           case UnignoreCmd => NoNamesToUnignore
           case ModeCmd => NoMode(name)
           case _ => NoDelay(name)
  {
    var e := Process(accounts, Command(name, None), author);
    match KindOf(name)
    case IgnoreCmd =>
      assert e == IgnoreCommand(accounts, None, author);
    case UnignoreCmd =>
      assert e == UnignoreCommand(accounts, None, author);
    case ModeCmd =>
      assert e == SwitchMode(accounts, name, None, author);
    case DelayCmd =>
      assert e == DelayCommand(accounts, name, None, author);
  }

  /** `!on` and `!off` are `!mode on` and `!mode off`, whatever follows them. */
  lemma Shortcut(accounts: Accounts, name: string, param: Option<string>, author: string)
    requires name == "on" || name == "off"
    ensures Process(accounts, Command(name, param), author)
      == Process(accounts, Command("mode", Some(name)), author)
  {
    assert KindOf("mode") == ModeCmd;
    assert KindOf(name) == OnOff;
  }

  /** A mode command sets exactly the mode its trimmed word names, and a word that names
      no mode throws and queues nothing. */
  lemma SwitchModeSpec(accounts: Accounts, name: string, p: string, author: string)
    ensures var e := SwitchMode(accounts, name, Some(p), author);
      && (ModeWord(Trim(p)).None? ==> e == Throws)
      && (ModeWord(Trim(p)).Some? && author in accounts ==>
           e.Done? && e.accounts[author] == accounts[author].(mode := ModeWord(Trim(p)).value)
           && e.reply == ModeSet(ModeWord(Trim(p)).value))
  {
  }

  /** The words each mode command accepts, surrounding white space aside. */
  lemma ModeWords(w: string)
    ensures ModeWord(w) == Some(Regular) <==> w in ["on", "regular", "normal"]
    ensures ModeWord(w) == Some(Advanced) <==> w in ["advanced", "plus"]
    ensures ModeWord(w) == Some(Off) <==> w == "off"
  {
  }

  /** `!delay`: text that `parseInt` cannot read changes nothing; a number is stored as
      its absolute value and nothing else changes. */
  lemma DelayCommandSpec(accounts: Accounts, name: string, p: string, author: string)
    ensures var e := DelayCommand(accounts, name, Some(p), author);
      && (ParseInt(p).NaN? ==> e.Done? && e.accounts == accounts && e.reply == BadDelay)
      && (ParseInt(p).Int? && author in accounts ==>
           e.Done? && e.accounts[author].mode == accounts[author].mode
           && e.accounts[author].ignored == accounts[author].ignored
           && e.accounts[author].delay as int == (if ParseInt(p).value < 0 then -ParseInt(p).value else ParseInt(p).value)
           && e.reply == DelaySet(ParseInt(p).value))
  {
  }

  /** A delay written as a number is stored as that number's absolute value. */
  lemma DelayWritten(accounts: Accounts, n: int, author: string)
    requires author in accounts
    ensures var e := Process(accounts, Command("delay", Some(IntToString(n))), author);
      e.Done? && e.accounts[author].delay as int == (if n < 0 then -n else n)
  {
    ParseIntOfIntToString("", n, "");
    assert "" + IntToString(n) + "" == IntToString(n);
    DelayDispatch(accounts, Some(IntToString(n)), author);
    DelayCommandSpec(accounts, "delay", IntToString(n), author);
  }

  /** `!state` only reads: it reports the mode, the delay and the ignored names. */
  lemma StateSpec(accounts: Accounts, param: Option<string>, author: string)
    requires author in accounts
    ensures var e := Process(accounts, Command("state", param), author);
      e.Done? && e.accounts == accounts && e.reply == State(accounts[author])
  {
    StateKind();
    assert Process(accounts, Command("state", param), author) == Done(accounts, State(accounts[author]));
  }

  lemma StateKind()
    ensures KindOf("state") == StateCmd
  {
    assert "state"[0] == 's';
  }

  /** A word with no white space at either end is its own trimmed form. */
  lemma TrimPlain(w: string)
    requires |w| > 0 && !IsSpace(w[0]) && !IsSpace(w[|w| - 1])
    ensures Trim(w) == w
  {
    LeadingSpacesUnique(w, 0);
    assert TrailingSpaces(w) == 0;
    assert w[0..|w|] == w;
  }

  /** For an author with a record, the one command that throws is a mode command whose
      word names no mode; every other command queues its reply. */
  lemma ProcessThrows(accounts: Accounts, cmd: Command, author: string)
    requires author in accounts
    ensures Process(accounts, cmd, author) == Throws <==>
      KindOf(cmd.name) == ModeCmd && cmd.param.Some? && ModeWord(Trim(cmd.param.value)).None?
  {
    match KindOf(cmd.name)
    case OnOff =>
      TrimPlain(cmd.name);
      assert Process(accounts, cmd, author) == SwitchMode(accounts, "mode", Some(cmd.name), author);
    case ModeCmd =>
      assert Process(accounts, cmd, author) == SwitchMode(accounts, cmd.name, cmd.param, author);
    case _ =>
  }
}
