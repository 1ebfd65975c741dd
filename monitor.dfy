/** The clipboard change detector (`ClipboardMonitor`). Each timer tick reads
    the pasteboard's change count and, only when that count differs from the
    last one seen, its string; a non-blank trimmed string is handed to the
    store. The pasteboard reads and the clock are inputs of a tick. */
module Monitor {
  import opened Text
  import opened Store

  datatype Option<T> = None | Some(value: T)

  /** What one tick reads from the pasteboard: its change count and, when it
      holds one, its plain-text string. */
  datatype Observation = Observation(changeCount: int, text: Option<string>)

  /** The monitor's last seen change count after a tick, and the string the
      tick passed to the store, if any. */
  datatype TickOutcome = TickOutcome(lastChangeCount: int, forwarded: Option<string>)

  /** One `checkClipboard()` from last seen count `last`. A tick remembers
      the new count whatever the pasteboard holds; it forwards a string
      exactly when the count changed and the pasteboard holds a non-blank
      string, and what it forwards is non-empty and already trimmed, so the
      store's own trimming keeps it as it is. */
  function Tick(last: int, obs: Observation): (o: TickOutcome)
    ensures o.lastChangeCount == obs.changeCount
    ensures obs.changeCount == last ==> o == TickOutcome(last, None)
    ensures o.forwarded.Some? <==>
              obs.changeCount != last && obs.text.Some? && !AllWhitespace(obs.text.value)
    ensures o.forwarded.Some? ==>
              o.forwarded.value == Trim(obs.text.value)
              && o.forwarded.value != [] && Trim(o.forwarded.value) == o.forwarded.value
  {
    if obs.changeCount == last then TickOutcome(last, None)
    else
      match obs.text
      case None => TickOutcome(obs.changeCount, None)
      case Some(s) =>
        var trimmed := Trim(s);
        TrimBlankIff(s);
        TrimIdempotent(s);
        if trimmed == [] then TickOutcome(obs.changeCount, None)
        else TickOutcome(obs.changeCount, Some(trimmed))
  }

  /** The strings forwarded to the store by a run of ticks, in order: at
      most one per change of the count. */
  function Run(last: int, ticks: seq<Observation>): (r: seq<string>)
    ensures |r| <= Changes(last, ticks)
    decreases |ticks|
  {
    if ticks == [] then []
    else
      var o := Tick(last, ticks[0]);
      (if o.forwarded.Some? then [o.forwarded.value] else []) + Run(o.lastChangeCount, ticks[1..])
  }

  /** How many ticks of the run see a change count different from the one
      before them. */
  function Changes(last: int, ticks: seq<Observation>): (n: nat)
    ensures n <= |ticks|
    decreases |ticks|
  {
    if ticks == [] then 0
    else (if ticks[0].changeCount != last then 1 else 0) + Changes(ticks[0].changeCount, ticks[1..])
  }

  /** Ticks that all see the last seen count forward nothing; in particular
      whatever the pasteboard held when the monitor was built is never
      forwarded until the count moves. */
  lemma {:induction false} RunWithoutChangeForwardsNothing(last: int, ticks: seq<Observation>)
    requires forall k :: 0 <= k < |ticks| ==> ticks[k].changeCount == last
    ensures Run(last, ticks) == []
    decreases |ticks|
  {
    if ticks != [] {
      RunWithoutChangeForwardsNothing(last, ticks[1..]);
    }
  }

  /** Every forwarded string is non-empty and already trimmed. */
  lemma {:induction false} RunForwardsTrimmedText(last: int, ticks: seq<Observation>)
    ensures forall s :: s in Run(last, ticks) ==> s != [] && Trim(s) == s
    decreases |ticks|
  {
    if ticks != [] {
      RunForwardsTrimmedText(ticks[0].changeCount, ticks[1..]);
    }
  }

  /** A change of count with text `x` on the pasteboard, followed by any
      number of ticks that still see the new count, forwards `x` trimmed
      exactly once. */
  lemma ChangeForwardedExactlyOnce(last: int, count: int, x: string, rest: seq<Observation>)
    requires count != last && !AllWhitespace(x)
    requires forall k :: 0 <= k < |rest| ==> rest[k].changeCount == count
    ensures Run(last, [Observation(count, Some(x))] + rest) == [Trim(x)]
  {
    var ticks := [Observation(count, Some(x))] + rest;
    assert ticks[1..] == rest;
    RunWithoutChangeForwardsNothing(count, rest);
  }

  /** `ClipboardMonitor`: the last seen change count, the store it feeds and
      its polling timer. Timers are numbered in creation order; `liveTimers`
      are those scheduled and not yet invalidated, `forwardLog` records every
      string passed to the store. */
  class ClipboardMonitor {
    const db: DBManager
    var lastChangeCount: int
    ghost var forwardLog: seq<string>
    var timer: Option<nat>
    var timersCreated: nat
    ghost var liveTimers: set<nat>

    ghost predicate Valid()
      reads this, db
    {
      db.Valid()
      && (timer.Some? ==> timer.value in liveTimers)
      && (forall t :: t in liveTimers ==> t < timersCreated)
    }

    /** `init(dbManager:)`: remember the pasteboard's current change count,
        so content already there is not recorded. */
    constructor (db: DBManager, initialChangeCount: int)
      requires db.Valid()
      ensures Valid() && this.db == db
      ensures lastChangeCount == initialChangeCount && forwardLog == []
      ensures timer == None && liveTimers == {}
    {
      this.db := db;
      lastChangeCount := initialChangeCount;
      forwardLog := [];
      timer := None;
      timersCreated := 0;
      liveTimers := {};
    }

    /** `start()`: schedule a new repeating timer and keep it in `timer`. A
        timer already held is not invalidated, so it keeps firing. */
    method Start()
      requires Valid()
      modifies this
      ensures Valid()
      ensures timer == Some(old(timersCreated)) && old(timersCreated) !in old(liveTimers)
      ensures liveTimers == old(liveTimers) + {old(timersCreated)} && timersCreated == old(timersCreated) + 1
      ensures lastChangeCount == old(lastChangeCount) && forwardLog == old(forwardLog)
    {
      timer := Some(timersCreated);
      liveTimers := liveTimers + {timersCreated};
      timersCreated := timersCreated + 1;
    }

    /** `stop()`: invalidate the timer held, if any, and forget it. */
    method Stop()
      requires Valid()
      modifies this
      ensures Valid() && timer == None
      ensures liveTimers == if old(timer).Some? then old(liveTimers) - {old(timer).value} else old(liveTimers)
      ensures timersCreated == old(timersCreated)
      ensures lastChangeCount == old(lastChangeCount) && forwardLog == old(forwardLog)
    {
      if timer.Some? {
        liveTimers := liveTimers - {timer.value};
      }
      timer := None;
    }

    /** `checkClipboard()` on one tick, reading `obs` from the pasteboard,
        with the store's clock at `now`. */
    method CheckClipboard(obs: Observation, now: int)
      requires Valid()
      modifies this, db
      ensures Valid()
      ensures var o := Tick(old(lastChangeCount), obs);
              lastChangeCount == o.lastChangeCount
              && forwardLog == old(forwardLog) + (if o.forwarded.Some? then [o.forwarded.value] else [])
              && db.State() == (if o.forwarded.Some? then AddText(old(db.State()), o.forwarded.value, now)
                                else old(db.State()))
      ensures timer == old(timer) && liveTimers == old(liveTimers) && timersCreated == old(timersCreated)
    {
      if obs.changeCount == lastChangeCount {
        return;
      }
      lastChangeCount := obs.changeCount;
      if obs.text.Some? {
        var trimmed := Trim(obs.text.value);
        TrimBlankIff(obs.text.value);
        if trimmed != [] {
          db.Add(trimmed, now);
          forwardLog := forwardLog + [trimmed];
        }
      }
    }
  }
}
