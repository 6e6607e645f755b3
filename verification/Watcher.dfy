/** The configuration watcher (pkg/config/watcher.go). */
module Watcher {
  import opened Text
  import opened Kube

  /** Informer events about the ConfigMap: an object that is none, one without the config.yaml key, one with a document,
      or its deletion. */
  datatype Event = Foreign | NoKey | Document(raw: string) | Deleted

  /** Decoding and validation; None when either fails. */
  type Parser = string -> Option<Config>

  predicate Changes(parse: Parser, e: Event) {
    match e
    case Foreign => false
    case NoKey => true
    case Document(raw) => parse(raw).Some?
    case Deleted => true
  }

  /** What a change makes current. */
  function Loaded(parse: Parser, e: Event): Config {
    if e.Document? && parse(e.raw).Some? then parse(e.raw).value else EMPTY_CONFIG
  }

  class ConfigWatcher {
    const parse: Parser
    var current: Config
    /** What Current returned at each call of OnChange. */
    ghost var notified: seq<Config>
    ghost var events: seq<Event>

    ghost predicate Valid()
      reads this
    {
      && current == LastGood(parse, events)
      && notified == Notifications(parse, events)
    }

    constructor (parse: Parser)
      ensures Valid() && current == EMPTY_CONFIG && events == [] && this.parse == parse
    {
      this.parse := parse;
      current := EMPTY_CONFIG;
      notified := [];
      events := [];
    }

    /** OnChange runs after the new configuration is stored. */
    method OnChange()
      modifies this`notified
      ensures notified == old(notified) + [current]
    {
      notified := notified + [current];
    }

    method Clear()
      modifies this`current, this`notified
      ensures current == EMPTY_CONFIG && notified == old(notified) + [EMPTY_CONFIG]
    {
      current := EMPTY_CONFIG;
      OnChange();
    }

    method Load(e: Event)
      requires Valid() && !e.Deleted?
      modifies this
      ensures Valid() && events == old(events) + [e]
      ensures Changes(parse, e) ==> current == Loaded(parse, e) && notified == old(notified) + [current]
      ensures !Changes(parse, e) ==> current == old(current) && notified == old(notified)
    {
      EventAppended(parse, events, e);
      events := events + [e];
      if e.Foreign? {
        return;
      }
      if e.NoKey? {
        Clear();
        return;
      }
      var cfg := parse(e.raw);
      if cfg.None? {
        return;
      }
      current := cfg.value;
      OnChange();
    }

    method Delete()
      requires Valid()
      modifies this
      ensures Valid() && events == old(events) + [Deleted] && current == EMPTY_CONFIG
    {
      EventAppended(parse, events, Deleted);
      events := events + [Deleted];
      Clear();
    }
  }

  /** The configuration of the last event that was not rejected. */
  function LastGood(parse: Parser, events: seq<Event>): Config
    decreases |events|
  {
    if events == [] then EMPTY_CONFIG
    else if Changes(parse, events[|events| - 1]) then Loaded(parse, events[|events| - 1])
    else LastGood(parse, events[..|events| - 1])
  }

  function Notifications(parse: Parser, events: seq<Event>): seq<Config>
    decreases |events|
  {
    if events == [] then []
    else
      var before := Notifications(parse, events[..|events| - 1]);
      if Changes(parse, events[|events| - 1]) then before + [Loaded(parse, events[|events| - 1])] else before
  }

  lemma EventAppended(parse: Parser, events: seq<Event>, e: Event)
    ensures LastGood(parse, events + [e]) == if Changes(parse, e) then Loaded(parse, e) else LastGood(parse, events)
    ensures Notifications(parse, events + [e]) ==
            Notifications(parse, events) + (if Changes(parse, e) then [Loaded(parse, e)] else [])
  {
    assert (events + [e])[..|events|] == events;
  }

  /** Store before notify: what the last notification announced is what is current; and a rejected document changes
      neither. */
  lemma {:induction false} LastNotificationIsCurrent(parse: Parser, events: seq<Event>)
    ensures Notifications(parse, events) == [] ==> LastGood(parse, events) == EMPTY_CONFIG
    ensures var ns := Notifications(parse, events); ns != [] ==> ns[|ns| - 1] == LastGood(parse, events)
    decreases |events|
  {
    if events != [] { LastNotificationIsCurrent(parse, events[..|events| - 1]); }
  }

  // ---- By the events alone

  /** Events that change nothing: other objects, and documents that do not parse. */
  ghost predicate Ignored(parse: Parser, events: seq<Event>) {
    forall e :: e in events ==> e == Foreign || (e.Document? && parse(e.raw) == None)
  }

  lemma {:induction false} IgnoredKeeps(parse: Parser, events: seq<Event>, later: seq<Event>)
    requires Ignored(parse, later)
    ensures LastGood(parse, events + later) == LastGood(parse, events)
    decreases |later|
  {
    if later == [] {
      assert events + later == events;
    } else {
      var rest, e := later[..|later| - 1], later[|later| - 1];
      assert e in later && forall x :: x in rest ==> x in later;
      IgnoredKeeps(parse, events, rest);
      assert events + later == (events + rest) + [e];
      EventAppended(parse, events + rest, e);
    }
  }

  /** After a valid document, as long as nothing but rejected events follow, its rules are the current ones. */
  lemma DocumentStays(parse: Parser, events: seq<Event>, i: nat, raw: string, cfg: Config)
    requires i < |events| && events[i] == Document(raw) && parse(raw) == Some(cfg) && Ignored(parse, events[i + 1..])
    ensures LastGood(parse, events) == cfg
  {
    EventAppended(parse, events[..i], events[i]);
    assert events == (events[..i] + [events[i]]) + events[i + 1..];
    IgnoredKeeps(parse, events[..i] + [events[i]], events[i + 1..]);
  }

  /** After a deletion, or without the key, or from the start, there are no rules, as long as only rejected events
      follow. */
  lemma EmptyStays(parse: Parser, events: seq<Event>, i: nat)
    requires i <= |events| && Ignored(parse, events[i..])
    requires i > 0 ==> events[i - 1] == NoKey || events[i - 1] == Deleted
    ensures LastGood(parse, events) == Config(map[], map[], map[], map[])
  {
    assert events == events[..i] + events[i..];
    IgnoredKeeps(parse, events[..i], events[i..]);
    if i > 0 {
      assert events[..i] == events[..i - 1] + [events[i - 1]];
      EventAppended(parse, events[..i - 1], events[i - 1]);
    }
  }
}
