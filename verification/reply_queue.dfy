/** The reply queue of app.js (`comments` and `sendMessage`): entries are pushed by the
    command and mention handlers; a one-second poll takes the first entry, stops itself and
    broadcasts it; a failed broadcast is retried with the same entry; after a successful one
    the poll restarts only once a 19-second cooldown has passed. The timers are replaced by
    the events that they and the broadcast callback produce. */
module ReplyQueue {
  import opened JsText
  import opened AppState

  /** Whether the poll is running, an entry is being broadcast, or the cooldown runs. */
  datatype Phase = Polling | Sending(entry: Entry) | Cooldown

  datatype Queue = Queue(pending: seq<Entry>, phase: Phase, sent: seq<Entry>)

  /** The state at start: nothing queued, the poll running. */
  const Start := Queue([], Polling, [])

  /** `comments.push(...)`; a poll tick; the broadcast callback with or without an error;
      the end of the cooldown timeout. */
  datatype Event = Push(entry: Entry) | Tick | Failed | Succeeded | CooldownOver

  /** One event. Events whose timer or callback is not running in the current phase do
      not occur; they are taken to change nothing. */
  function Next(q: Queue, ev: Event): Queue {
    match ev
    case Push(e) => q.(pending := q.pending + [e])
    case Tick =>
      if q.phase.Polling? && |q.pending| > 0 then q.(phase := Sending(q.pending[0]), pending := q.pending[1..])
      else q
    case Failed => q
    case Succeeded =>
      if q.phase.Sending? then q.(phase := Cooldown, sent := q.sent + [q.phase.entry]) else q
    case CooldownOver =>
      if q.phase.Cooldown? then q.(phase := Polling) else q
  }

  /** The state after a sequence of events. */
  function Run(q: Queue, evs: seq<Event>): Queue
    decreases |evs|
  {
    if |evs| == 0 then q else Next(Run(q, evs[..|evs| - 1]), evs[|evs| - 1])
  }

  /** The entries pushed by a sequence of events, in order. */
  function Pushed(evs: seq<Event>): seq<Entry>
    decreases |evs|
  {
    if |evs| == 0 then []
    else Pushed(evs[..|evs| - 1]) + (if evs[|evs| - 1].Push? then [evs[|evs| - 1].entry] else [])
  }

  /** The entry being broadcast, if any. */
  function InFlight(p: Phase): (r: seq<Entry>)
    ensures |r| <= 1
  {
    if p.Sending? then [p.entry] else []
  }

  /** Nothing is lost, duplicated or reordered: the entries sent, the one in flight and
      the ones waiting are, in this order, the entries pushed. */
  lemma {:induction false} RunConserves(evs: seq<Event>)
    ensures var q := Run(Start, evs);
      q.sent + InFlight(q.phase) + q.pending == Pushed(evs)
    decreases |evs|
  {
    if |evs| > 0 {
      var init := evs[..|evs| - 1];
      RunConserves(init);
      NextConserves(Run(Start, init), evs[|evs| - 1]);
    }
  }

  /** The entries held by a queue, in the order they were pushed. */
  function Held(q: Queue): seq<Entry> {
    q.sent + InFlight(q.phase) + q.pending
  }

  /** One event keeps the entries held and appends the one it pushes. */
  lemma NextConserves(q: Queue, ev: Event)
    ensures Held(Next(q, ev)) == Held(q) + (if ev.Push? then [ev.entry] else [])
  {
    var q' := Next(q, ev);
    match ev
    case Push(e) =>
      assert Held(q') == Held(q) + [e];
    case Tick =>
      if q.phase.Polling? && |q.pending| > 0 {
        assert q.pending == [q.pending[0]] + q.pending[1..];
        assert Held(q') == Held(q);
      }
    case Failed =>
    case Succeeded =>
      if q.phase.Sending? {
        assert Held(q') == Held(q);
      }
    case CooldownOver =>
  }

  /** Entries are broadcast first in, first out: those sent so far are the first ones
      pushed, in order. */
  lemma SentInOrder(evs: seq<Event>)
    ensures Run(Start, evs).sent <= Pushed(evs)
  {
    RunConserves(evs);
  }

  /** A broadcast starts only from the running poll, with the first waiting entry, and
      never while another is in flight or during the cooldown. */
  lemma SingleFlight(q: Queue, ev: Event)
    ensures var q' := Next(q, ev);
      q'.phase.Sending? && !q.phase.Sending? ==>
        && q.phase.Polling? && ev == Tick && |q.pending| > 0
        && q'.phase.entry == q.pending[0] && q'.pending == q.pending[1..]
    ensures q.phase.Sending? && Next(q, ev).phase.Sending? ==> Next(q, ev).phase == q.phase
  {
  }

  /** A failed broadcast is retried with the same entry, and the queue does not move. */
  lemma RetrySame(q: Queue)
    requires q.phase.Sending?
    ensures Next(q, Failed) == q
  {
  }

  /** The poll runs again only after the cooldown, and the cooldown only follows a
      successful broadcast, which counts that entry as sent. */
  lemma PollingResumes(q: Queue, ev: Event)
    ensures Next(q, ev).phase.Polling? && !q.phase.Polling? ==> q.phase.Cooldown? && ev == CooldownOver
    ensures Next(q, ev).phase.Cooldown? && !q.phase.Cooldown? ==>
      q.phase.Sending? && ev == Succeeded && Next(q, ev).sent == q.sent + [q.phase.entry]
  {
  }

  /** The footer every reply ends with. */
  const Footer := "\n\n###### If you found this comment useful, consider upvoting it to help keep this bot running. You can see a list of all available commands by replying with `!help`."

  /** `JSON.stringify(metadata)` of the fixed metadata object. */
  const Metadata := "{\"app\":\"checky/0.0.2\",\"format\":\"markdown\",\"tags\":[\"mentions\",\"bot\",\"checky\"]}"

  /** The arguments of `steem.broadcast.comment`, the posting key left out. */
  datatype Broadcast = Broadcast(parentAuthor: string, parentPermlink: string, author: string,
                                 permlink: string, title: string, body: string, jsonMetadata: string)

  /** `'re-' + author.replace('.', '') + '-' + permlink`: only the first dot of the
      author is dropped. */
  function ReplyPermlink(author: string, permlink: string): string {
    "re-" + ReplaceFirst(author, '.', "") + "-" + permlink
  }

  /** `sendMessage(message, author, permlink, title)` */
  function BroadcastOf(e: Entry): Broadcast {
    Broadcast(e.author, e.permlink, "checky", ReplyPermlink(e.author, e.permlink), e.title, e.message + Footer, Metadata)
  }

  /** The reply answers the entry's comment, under the entry's title, with its message
      followed by the footer. */
  lemma BroadcastSpec(e: Entry)
    ensures var b := BroadcastOf(e);
      && b.parentAuthor == e.author && b.parentPermlink == e.permlink && b.author == "checky"
      && b.title == e.title
      && b.body[..|e.message|] == e.message && b.body[|e.message|..] == Footer
  {
  }

  /** An author name without a dot appears whole in the reply's permlink. */
  lemma PermlinkPlain(author: string, permlink: string)
    requires '.' !in author
    ensures ReplyPermlink(author, permlink) == "re-" + author + "-" + permlink
  {
  }

  /** With two dots, the second one stays: `a.b.c` answers `p` as `re-ab.c-p`. */
  lemma PermlinkSecondDot()
    ensures ReplyPermlink("a.b.c", "p") == "re-ab.c-p"
  {
    assert IndexOf("a.b.c", '.') == 1 by {
      assert "a.b.c"[0] == 'a' && "a.b.c"[1] == '.';
      assert "a.b.c"[1..] == ".b.c";
    }
    assert ReplaceFirst("a.b.c", '.', "") == "a" + "" + "b.c";
  }
}
