/** The event bus: an insertion-ordered dictionary from patterns to lists of processors
    (acapy_agent/core/event_bus.py). Regular expressions are modelled by an uninterpreted match relation. */
module EventBus {

  type Pattern = string
  type Topic = string
  type Processor = nat

  datatype Entry = Entry(pattern: Pattern, processors: seq<Processor>)

  datatype Subscription = Subscription(pattern: Pattern, processor: Processor)

  datatype Change = Subscribe(pattern: Pattern, processor: Processor) | Unsubscribe(pattern: Pattern, processor: Processor)

  // ---- The dictionary as a value ----

  function Subscribed(table: seq<Entry>, p: Pattern, h: Processor): seq<Entry> {
    if table == [] then [Entry(p, [h])]
    else if table[0].pattern == p then [Entry(p, table[0].processors + [h])] + table[1..]
    else [table[0]] + Subscribed(table[1..], p, h)
  }

  function RemoveFirst(hs: seq<Processor>, h: Processor): seq<Processor> {
    if hs == [] then [] else if hs[0] == h then hs[1..] else [hs[0]] + RemoveFirst(hs[1..], h)
  }

  /** A pattern whose last processor leaves is deleted. */
  function Unsubscribed(table: seq<Entry>, p: Pattern, h: Processor): seq<Entry> {
    if table == [] then []
    else if table[0].pattern == p then
      if h !in table[0].processors then table
      else
        var rest := RemoveFirst(table[0].processors, h);
        if rest == [] then table[1..] else [Entry(p, rest)] + table[1..]
    else [table[0]] + Unsubscribed(table[1..], p, h)
  }

  function Changed(table: seq<Entry>, c: Change): seq<Entry> {
    match c
    case Subscribe(p, h) => Subscribed(table, p, h)
    case Unsubscribe(p, h) => Unsubscribed(table, p, h)
  }

  function ChangedAll(table: seq<Entry>, cs: seq<Change>): seq<Entry> {
    if cs == [] then table else Changed(ChangedAll(table, cs[..|cs| - 1]), cs[|cs| - 1])
  }

  function Pairs(p: Pattern, hs: seq<Processor>): seq<Subscription> {
    if hs == [] then [] else [Subscription(p, hs[0])] + Pairs(p, hs[1..])
  }

  /** Everyone to call for a topic, in the order of subscription. */
  function Snapshot(table: seq<Entry>, matches: (Pattern, Topic) -> bool, topic: Topic): seq<Subscription> {
    if table == [] then []
    else (if matches(table[0].pattern, topic) then Pairs(table[0].pattern, table[0].processors) else []) +
         Snapshot(table[1..], matches, topic)
  }

  // ---- What it means ----

  /** The subscriptions in force, with multiplicity. */
  ghost function Registered(table: seq<Entry>): multiset<Subscription> {
    if table == [] then multiset{} else multiset(Pairs(table[0].pattern, table[0].processors)) + Registered(table[1..])
  }

  lemma {:induction false} PairsAppend(p: Pattern, hs: seq<Processor>, h: Processor)
    ensures Pairs(p, hs + [h]) == Pairs(p, hs) + [Subscription(p, h)]
  {
    if hs == [] {
      assert hs + [h] == [h];
    } else {
      PairsAppend(p, hs[1..], h);
      assert (hs + [h])[1..] == hs[1..] + [h];
    }
  }

  lemma {:induction false} PairsMembers(p: Pattern, hs: seq<Processor>)
    ensures forall s :: s in Pairs(p, hs) <==> s.pattern == p && s.processor in hs
  {
    if hs != [] {
      PairsMembers(p, hs[1..]);
      assert forall h :: h in hs <==> h == hs[0] || h in hs[1..];
    }
  }

  lemma {:induction false} PairsRemove(p: Pattern, hs: seq<Processor>, h: Processor)
    ensures multiset(Pairs(p, RemoveFirst(hs, h))) == multiset(Pairs(p, hs)) - multiset{Subscription(p, h)}
  {
    if hs != [] {
      assert multiset(Pairs(p, hs)) == multiset{Subscription(p, hs[0])} + multiset(Pairs(p, hs[1..]));
      if hs[0] != h {
        PairsRemove(p, hs[1..], h);
        PairsCons(p, hs[0], RemoveFirst(hs[1..], h));
      }
    }
  }

  lemma PairsCons(p: Pattern, h: Processor, hs: seq<Processor>)
    ensures multiset(Pairs(p, [h] + hs)) == multiset{Subscription(p, h)} + multiset(Pairs(p, hs))
  {
    assert ([h] + hs)[1..] == hs;
  }

  lemma RegisteredCons(e: Entry, rest: seq<Entry>)
    ensures Registered([e] + rest) == multiset(Pairs(e.pattern, e.processors)) + Registered(rest)
  {
    assert ([e] + rest)[1..] == rest;
  }

  lemma {:induction false} SubscribeAddsOne(table: seq<Entry>, p: Pattern, h: Processor)
    ensures Registered(Subscribed(table, p, h)) == Registered(table) + multiset{Subscription(p, h)}
  {
    if table == [] {
      RegisteredCons(Entry(p, [h]), []);
    } else if table[0].pattern == p {
      PairsAppend(p, table[0].processors, h);
      RegisteredCons(Entry(p, table[0].processors + [h]), table[1..]);
    } else {
      SubscribeAddsOne(table[1..], p, h);
      RegisteredCons(table[0], Subscribed(table[1..], p, h));
    }
  }

  function Patterns(table: seq<Entry>): set<Pattern> {
    if table == [] then {} else {table[0].pattern} + Patterns(table[1..])
  }

  /** A dictionary has each pattern once. */
  ghost predicate DistinctPatterns(table: seq<Entry>) {
    table != [] ==> table[0].pattern !in Patterns(table[1..]) && DistinctPatterns(table[1..])
  }

  lemma {:induction false} OtherPatternsOnly(table: seq<Entry>, p: Pattern, h: Processor)
    requires p !in Patterns(table)
    ensures Subscription(p, h) !in Registered(table)
  {
    if table != [] {
      OtherPatternsOnly(table[1..], p, h);
      PairsMembers(table[0].pattern, table[0].processors);
    }
  }

  lemma TakeFromLeft(a: multiset<Subscription>, b: multiset<Subscription>, s: Subscription)
    requires s !in b
    ensures (a + b) - multiset{s} == (a - multiset{s}) + b
  {
  }

  lemma TakeFromRight(a: multiset<Subscription>, b: multiset<Subscription>, s: Subscription)
    requires s !in a
    ensures (a + b) - multiset{s} == a + (b - multiset{s})
  {
  }

  lemma UnsubscribeHead(table: seq<Entry>, p: Pattern, h: Processor)
    requires table != [] && table[0].pattern == p && Subscription(p, h) !in Registered(table[1..])
    ensures Registered(Unsubscribed(table, p, h)) == Registered(table) - multiset{Subscription(p, h)}
    ensures Subscription(p, h) !in Registered(table) ==> Unsubscribed(table, p, h) == table
  {
    var hs := table[0].processors;
    ghost var head, tail := multiset(Pairs(p, hs)), Registered(table[1..]);
    PairsMembers(p, hs);
    if h in hs {
      PairsRemove(p, hs, h);
      TakeFromLeft(head, tail, Subscription(p, h));
      assert (head + tail) - multiset{Subscription(p, h)} == multiset(Pairs(p, RemoveFirst(hs, h))) + tail;
      RegisteredCons(Entry(p, RemoveFirst(hs, h)), table[1..]);
    } else {
      assert Subscription(p, h) !in head;
    }
  }

  /** Unsubscribing takes away one matching subscription if there is one, and otherwise nothing: it can be
      repeated without harm, and it undoes a subscription. */
  lemma {:induction false} UnsubscribeTakesOne(table: seq<Entry>, p: Pattern, h: Processor)
    requires DistinctPatterns(table)
    ensures Registered(Unsubscribed(table, p, h)) == Registered(table) - multiset{Subscription(p, h)}
    ensures Subscription(p, h) !in Registered(table) ==> Unsubscribed(table, p, h) == table
  {
    if table != [] && table[0].pattern == p {
      OtherPatternsOnly(table[1..], p, h);
      UnsubscribeHead(table, p, h);
    } else if table != [] {
      UnsubscribeTakesOne(table[1..], p, h);
      UnsubscribeTail(table, p, h);
      assert [table[0]] + table[1..] == table;
    }
  }

  lemma UnsubscribeTail(table: seq<Entry>, p: Pattern, h: Processor)
    requires table != [] && table[0].pattern != p
    requires Registered(Unsubscribed(table[1..], p, h)) == Registered(table[1..]) - multiset{Subscription(p, h)}
    ensures Registered(Unsubscribed(table, p, h)) == Registered(table) - multiset{Subscription(p, h)}
    ensures Subscription(p, h) in Registered(table) <==> Subscription(p, h) in Registered(table[1..])
  {
    ghost var head, tail := multiset(Pairs(table[0].pattern, table[0].processors)), Registered(table[1..]);
    PairsMembers(table[0].pattern, table[0].processors);
    assert Subscription(p, h) !in head;
    TakeFromRight(head, tail, Subscription(p, h));
    calc {
      Registered(Unsubscribed(table, p, h));
      { RegisteredCons(table[0], Unsubscribed(table[1..], p, h)); }
      head + (tail - multiset{Subscription(p, h)});
      (head + tail) - multiset{Subscription(p, h)};
    }
  }

  lemma {:induction false} SubscribedKeepsPatterns(table: seq<Entry>, p: Pattern, h: Processor)
    requires DistinctPatterns(table)
    ensures DistinctPatterns(Subscribed(table, p, h)) && Patterns(Subscribed(table, p, h)) == Patterns(table) + {p}
  {
    var table' := Subscribed(table, p, h);
    if table != [] {
      if table[0].pattern != p {
        SubscribedKeepsPatterns(table[1..], p, h);
        assert table'[1..] == Subscribed(table[1..], p, h);
      } else {
        assert table'[1..] == table[1..];
      }
    }
  }

  lemma {:induction false} UnsubscribedKeepsPatterns(table: seq<Entry>, p: Pattern, h: Processor)
    requires DistinctPatterns(table)
    ensures DistinctPatterns(Unsubscribed(table, p, h)) && Patterns(Unsubscribed(table, p, h)) <= Patterns(table)
  {
    var table' := Unsubscribed(table, p, h);
    if table != [] {
      if table[0].pattern != p {
        UnsubscribedKeepsPatterns(table[1..], p, h);
        assert table'[1..] == Unsubscribed(table[1..], p, h);
      } else if h in table[0].processors && RemoveFirst(table[0].processors, h) != [] {
        assert table'[1..] == table[1..];
      }
    }
  }

  /** So the dictionary keeps each pattern once, whatever is subscribed and unsubscribed. */
  lemma {:induction false} ChangesKeepPatterns(table: seq<Entry>, cs: seq<Change>)
    requires DistinctPatterns(table)
    ensures DistinctPatterns(ChangedAll(table, cs))
  {
    if cs != [] {
      ChangesKeepPatterns(table, cs[..|cs| - 1]);
      var last, before := cs[|cs| - 1], ChangedAll(table, cs[..|cs| - 1]);
      SubscribedKeepsPatterns(before, last.pattern, last.processor);
      UnsubscribedKeepsPatterns(before, last.pattern, last.processor);
    }
  }

  /** A notification calls every subscription in force whose pattern matches, exactly as often as it is in
      force, and nobody else. */
  lemma {:induction false} SnapshotIsExact(table: seq<Entry>, matches: (Pattern, Topic) -> bool, topic: Topic, s: Subscription)
    ensures multiset(Snapshot(table, matches, topic))[s] == if matches(s.pattern, topic) then Registered(table)[s] else 0
  {
    if table != [] {
      SnapshotIsExact(table[1..], matches, topic, s);
      PairsMembers(table[0].pattern, table[0].processors);
      assert s in multiset(Pairs(table[0].pattern, table[0].processors)) ==> s.pattern == table[0].pattern;
    }
  }

  /** Subscribing and then unsubscribing leaves the same subscriptions in force. */
  lemma {:induction false} UnsubscribeUndoesSubscribe(table: seq<Entry>, p: Pattern, h: Processor)
    requires DistinctPatterns(table)
    ensures Registered(Unsubscribed(Subscribed(table, p, h), p, h)) == Registered(table)
  {
    SubscribeAddsOne(table, p, h);
    SubscribedKeepsPatterns(table, p, h);
    UnsubscribeTakesOne(Subscribed(table, p, h), p, h);
  }

  // ---- The class ----

  /** How a call ends: it returns, raises an `Exception`, or raises what an `except Exception` lets through, such as
      a cancellation. */
  datatype Ending = Returns | RaisesException | Escapes

  /** What one processor does when it is called: it changes subscriptions, and then its call ends. */
  datatype Reaction = Reaction(changes: seq<Change>, ending: Ending)

  function ChangesOf(reactions: seq<Reaction>): seq<Change> {
    if reactions == [] then [] else ChangesOf(reactions[..|reactions| - 1]) + reactions[|reactions| - 1].changes
  }

  class EventBus {
    const matches: (Pattern, Topic) -> bool
    var table: seq<Entry>

    constructor (matches: (Pattern, Topic) -> bool)
      ensures this.matches == matches && table == []
    {
      this.matches := matches;
      table := [];
    }

    method Find(p: Pattern) returns (i: nat)
      ensures i <= |table|
      ensures forall k :: 0 <= k < i ==> table[k].pattern != p
      ensures i < |table| ==> table[i].pattern == p
    {
      i := 0;
      while i < |table| && table[i].pattern != p
        invariant i <= |table|
        invariant forall k :: 0 <= k < i ==> table[k].pattern != p
      {
        i := i + 1;
      }
    }

    method AddSubscriber(p: Pattern, h: Processor)
      modifies this
      ensures table == Subscribed(old(table), p, h)
    {
      var i := Find(p);
      SubscribedAt(table, p, h, i);
      if i == |table| {
        table := table + [Entry(p, [h])];
      } else {
        table := table[i := Entry(p, table[i].processors + [h])];
      }
    }

    method RemoveSubscriber(p: Pattern, h: Processor)
      modifies this
      ensures table == Unsubscribed(old(table), p, h)
    {
      var i := Find(p);
      UnsubscribedAt(table, p, h, i);
      if i < |table| {
        var hs := table[i].processors;
        var index := 0;
        while index < |hs| && hs[index] != h
          invariant index <= |hs| && h !in hs[..index]
        {
          index := index + 1;
        }
        if index == |hs| {
          assert hs[..index] == hs;
          return;
        }
        RemoveFirstAt(hs, h, index);
        var rest := hs[..index] + hs[index + 1..];
        if rest == [] {
          table := table[..i] + table[i + 1..];
        } else {
          table := table[i := Entry(p, rest)];
        }
      }
    }

    method Apply(c: Change)
      modifies this
      ensures table == Changed(old(table), c)
    {
      match c
      case Subscribe(p, h) => AddSubscriber(p, h);
      case Unsubscribe(p, h) => RemoveSubscriber(p, h);
    }

    method ApplyAll(cs: seq<Change>)
      modifies this
      ensures table == ChangedAll(old(table), cs)
    {
      for k := 0 to |cs|
        invariant table == ChangedAll(old(table), cs[..k])
      {
        Apply(cs[k]);
        assert cs[..k + 1][..k] == cs[..k];
      }
      assert cs[..|cs|] == cs;
    }

    static method CollectPairs(p: Pattern, hs: seq<Processor>) returns (pairs: seq<Subscription>)
      ensures pairs == Pairs(p, hs)
    {
      pairs := [];
      for k := 0 to |hs|
        invariant pairs == Pairs(p, hs[..k])
      {
        pairs := pairs + [Subscription(p, hs[k])];
        PairsAppend(p, hs[..k], hs[k]);
        assert hs[..k + 1] == hs[..k] + [hs[k]];
      }
      assert hs[..|hs|] == hs;
    }

    /** Collects the calls to make: pattern by pattern, subscriber by subscriber. */
    method Collect(topic: Topic) returns (partials: seq<Subscription>)
      ensures partials == Snapshot(table, matches, topic)
    {
      partials := [];
      for i := 0 to |table|
        invariant partials == Snapshot(table[..i], matches, topic)
      {
        SnapshotAppend(table[..i], matches, topic, table[i]);
        assert table[..i + 1] == table[..i] + [table[i]];
        if matches(table[i].pattern, topic) {
          var pairs := CollectPairs(table[i].pattern, table[i].processors);
          partials := partials + pairs;
        }
      }
      assert table[..|table|] == table;
    }

    /** Calls each matching subscriber of the table as it was on entry, whatever the processors called before
        it subscribe, unsubscribe or raise, up to one whose error escapes. `reactions[n]` is what the n-th called
        processor does. */
    method Notify(topic: Topic, reactions: seq<Reaction>) returns (calls: seq<Subscription>, escaped: bool)
      requires |reactions| >= |Snapshot(table, matches, topic)|
      modifies this
      ensures var all := Snapshot(old(table), matches, topic);
        && (escaped <==> exists n :: 0 <= n < |all| && reactions[n].ending.Escapes?)
        && (!escaped ==> calls == all)
        && (escaped ==> calls != [] && calls <= all && reactions[|calls| - 1].ending.Escapes?)
        && (forall k :: 0 <= k < |calls| - 1 ==> !reactions[k].ending.Escapes?)
      ensures table == ChangedAll(old(table), ChangesOf(reactions[..|calls|]))
    {
      var partials := Collect(topic);
      calls, escaped := CallAll(partials, reactions);
    }

    /** Awaits the collected calls one after the other, each inside its own `try`. */
    method CallAll(partials: seq<Subscription>, reactions: seq<Reaction>) returns (calls: seq<Subscription>, escaped: bool)
      requires |reactions| >= |partials|
      modifies this
      ensures escaped <==> exists n :: 0 <= n < |partials| && reactions[n].ending.Escapes?
      ensures !escaped ==> calls == partials
      ensures escaped ==> calls != [] && calls <= partials && reactions[|calls| - 1].ending.Escapes?
      ensures forall k :: 0 <= k < |calls| - 1 ==> !reactions[k].ending.Escapes?
      ensures table == ChangedAll(old(table), ChangesOf(reactions[..|calls|]))
    {
      calls := [];
      for n := 0 to |partials|
        invariant calls == partials[..n]
        invariant table == ChangedAll(old(table), ChangesOf(reactions[..n]))
        invariant forall k :: 0 <= k < n ==> !reactions[k].ending.Escapes?
      {
        OneMoreReaction(old(table), reactions, n);
        calls := calls + [partials[n]];
        ApplyAll(reactions[n].changes);
        match reactions[n].ending {
          case Returns =>
          case RaisesException =>
          case Escapes => return calls, true;
        }
      }
      escaped := false;
    }
  }

  lemma {:induction false} SnapshotAppend(table: seq<Entry>, matches: (Pattern, Topic) -> bool, topic: Topic, e: Entry)
    ensures Snapshot(table + [e], matches, topic) ==
            Snapshot(table, matches, topic) + (if matches(e.pattern, topic) then Pairs(e.pattern, e.processors) else [])
  {
    if table == [] {
      assert table + [e] == [e];
    } else {
      SnapshotAppend(table[1..], matches, topic, e);
      assert table + [e] == [table[0]] + (table[1..] + [e]);
      SnapshotCons(table[0], table[1..] + [e], matches, topic);
      Associative(if matches(table[0].pattern, topic) then Pairs(table[0].pattern, table[0].processors) else [],
                  Snapshot(table[1..], matches, topic),
                  if matches(e.pattern, topic) then Pairs(e.pattern, e.processors) else []);
    }
  }

  lemma SnapshotCons(e: Entry, rest: seq<Entry>, matches: (Pattern, Topic) -> bool, topic: Topic)
    ensures Snapshot([e] + rest, matches, topic) ==
            (if matches(e.pattern, topic) then Pairs(e.pattern, e.processors) else []) + Snapshot(rest, matches, topic)
  {
    assert ([e] + rest)[1..] == rest;
  }

  lemma Associative<T>(a: seq<T>, b: seq<T>, c: seq<T>)
    ensures (a + b) + c == a + (b + c)
  {
  }

  lemma OneMoreReaction(table: seq<Entry>, reactions: seq<Reaction>, n: nat)
    requires n < |reactions|
    ensures ChangedAll(table, ChangesOf(reactions[..n + 1])) ==
            ChangedAll(ChangedAll(table, ChangesOf(reactions[..n])), reactions[n].changes)
  {
    assert reactions[..n + 1][..n] == reactions[..n];
    ChangedAllAppend(table, ChangesOf(reactions[..n]), reactions[n].changes);
  }

  lemma {:induction false} ChangedAllAppend(table: seq<Entry>, cs: seq<Change>, ds: seq<Change>)
    ensures ChangedAll(table, cs + ds) == ChangedAll(ChangedAll(table, cs), ds)
  {
    if ds == [] {
      assert cs + ds == cs;
    } else {
      ChangedAllAppend(table, cs, ds[..|ds| - 1]);
      assert (cs + ds)[..|cs + ds| - 1] == cs + ds[..|ds| - 1];
    }
  }

  lemma {:induction false} SubscribedAt(table: seq<Entry>, p: Pattern, h: Processor, i: nat)
    requires i <= |table| && (forall k :: 0 <= k < i ==> table[k].pattern != p) && (i < |table| ==> table[i].pattern == p)
    ensures Subscribed(table, p, h) ==
            if i == |table| then table + [Entry(p, [h])] else table[i := Entry(p, table[i].processors + [h])]
  {
    if i > 0 {
      SubscribedAt(table[1..], p, h, i - 1);
    }
  }

  lemma {:induction false} UnsubscribedAt(table: seq<Entry>, p: Pattern, h: Processor, i: nat)
    requires i <= |table| && (forall k :: 0 <= k < i ==> table[k].pattern != p) && (i < |table| ==> table[i].pattern == p)
    ensures Unsubscribed(table, p, h) ==
            if i == |table| || h !in table[i].processors then table
            else if RemoveFirst(table[i].processors, h) == [] then table[..i] + table[i + 1..]
            else table[i := Entry(p, RemoveFirst(table[i].processors, h))]
  {
    if i > 0 {
      UnsubscribedAt(table[1..], p, h, i - 1);
      assert [table[0]] + table[1..] == table;
      assert Unsubscribed(table, p, h) == [table[0]] + Unsubscribed(table[1..], p, h);
      if i < |table| {
        ConsDropsAndUpdates(table, i, Entry(p, RemoveFirst(table[i].processors, h)));
      }
    }
  }

  lemma ConsDropsAndUpdates(table: seq<Entry>, i: nat, e: Entry)
    requires 0 < i < |table|
    ensures [table[0]] + (table[1..][..i - 1] + table[1..][i..]) == table[..i] + table[i + 1..]
    ensures [table[0]] + table[1..][i - 1 := e] == table[i := e]
  {
  }

  lemma {:induction false} RemoveFirstAt(hs: seq<Processor>, h: Processor, i: nat)
    requires i < |hs| && hs[i] == h && h !in hs[..i]
    ensures RemoveFirst(hs, h) == hs[..i] + hs[i + 1..]
  {
    if i > 0 {
      assert hs[0] == hs[..i][0];
      assert hs[1..][..i - 1] == hs[..i][1..];
      RemoveFirstAt(hs[1..], h, i - 1);
    }
  }
}
