/**
 The domain-event publisher. It walks a batch of notification messages in
 order: for an entity it publishes every buffered event, in buffer order;
 for any other message it logs one error naming the message's type and
 moves on. The notification bus and the logger are external: their calls
 are the actions of a trace.
 */
module Publisher {
  import opened Optional
  import opened Entities

  /** A call into a collaborator: the bus's `Publish` or the logger's `LogError`. */
  datatype Action = Publish(notification: Message) | LogError(typeName: string)

  /**
   How a batch ends: every item processed, or the bus threw on the
   `failedCall`-th publish call (counted from 0) and the rest was abandoned.
   */
  datatype Outcome = Completed | Faulted(failedCall: nat)

  /** One publish call per buffered event, in buffer order. */
  function PublishEach(events: seq<Message>): seq<Action> {
    seq(|events|, i requires 0 <= i < |events| => Publish(events[i]))
  }

  /** The actions one item of the batch causes. */
  function ItemActions(m: Message): seq<Action> {
    match m
    case Entity(e) => PublishEach(e.DomainEvents())
    case Plain(name, _) => [LogError(name)]
  }

  /** The reference trace of a batch that the bus never fails on. */
  function Trace(items: seq<Message>): seq<Action> {
    if items == [] then [] else ItemActions(items[0]) + Trace(items[1..])
  }

  function PublishCount(t: seq<Action>): nat {
    if t == [] then 0 else (if t[0].Publish? then 1 else 0) + PublishCount(t[1..])
  }

  function LogCount(t: seq<Action>): nat {
    if t == [] then 0 else (if t[0].LogError? then 1 else 0) + LogCount(t[1..])
  }

  /** The sum of the buffer lengths of the entities in a batch. */
  function BufferedEventCount(items: seq<Message>): nat {
    if items == [] then 0
    else (if items[0].Entity? then |items[0].entity.DomainEvents()| else 0)
         + BufferedEventCount(items[1..])
  }

  /** The number of items of a batch that are not entities. */
  function NonEntityCount(items: seq<Message>): nat {
    if items == [] then 0
    else (if items[0].Entity? then 0 else 1) + NonEntityCount(items[1..])
  }

  /**
   `PublishDomainEventsAsync`, with the bus failing on publish call number
   `failAt` (none when `failAt` is `None`). The result is the trace of the
   calls that completed and how the batch ended: the full reference trace
   when no call fails, otherwise the prefix of it that stops right before
   the failing publish.
   */
  method PublishDomainEvents(items: seq<Message>, failAt: Option<nat>)
    returns (trace: seq<Action>, outcome: Outcome)
    ensures trace <= Trace(items)
    ensures outcome.Completed? <==> failAt.None? || PublishCount(Trace(items)) <= failAt.value
    ensures outcome.Completed? ==> trace == Trace(items)
    ensures outcome.Faulted? ==>
      && failAt == Some(outcome.failedCall)
      && PublishCount(trace) == outcome.failedCall
      && |trace| < |Trace(items)|
      && Trace(items)[|trace|].Publish?
  {
    trace := [];
    outcome := Completed;
    var published: nat := 0;
    var i := 0;
    while i < |items|
      invariant 0 <= i <= |items|
      invariant trace == Trace(items[..i])
      invariant published == PublishCount(trace)
      invariant failAt.Some? ==> published <= failAt.value
    {
      var actions, failed := PublishItem(items[i], published, failAt);
      if failed {
        var failedCall := published + |actions|;
        assert failAt == Some(failedCall);
        FaultedInItem(items, i, actions, published, failAt);
        trace, outcome := trace + actions, Faulted(failedCall);
        assert outcome.failedCall == failedCall;
        return;
      }
      PublishCountConcat(trace, actions);
      TraceStep(items, i);
      trace := trace + actions;
      published := published + PublishCount(actions);
      i := i + 1;
    }
    assert items[..i] == items;
  }

  /**
   One item of the batch, `published` calls into it: an entity's buffer is
   published in order until the bus throws, anything else is logged.
   */
  method PublishItem(item: Message, published: nat, failAt: Option<nat>)
    returns (actions: seq<Action>, failed: bool)
    requires failAt.Some? ==> published <= failAt.value
    ensures !failed ==> actions == ItemActions(item)
    ensures !failed ==> failAt.Some? ==> published + PublishCount(actions) <= failAt.value
    ensures failed ==>
      && item.Entity?
      && |actions| < |item.entity.DomainEvents()|
      && actions == PublishEach(item.entity.DomainEvents()[..|actions|])
      && PublishCount(actions) == |actions|
      && failAt == Some(published + |actions|)
  {
    match item {
      case Entity(e) =>
        actions, failed := PublishBuffer(e.DomainEvents(), published, failAt);
        PublishedPrefix(e.DomainEvents(), actions);
        if !failed {
          assert e.DomainEvents()[..|actions|] == e.DomainEvents();
        }
      case Plain(name, _) =>
        actions, failed := [LogError(name)], false;
    }
  }

  /**
   The inner loop over one entity's buffer, `published` calls into the
   batch: the publish calls that completed, in buffer order, and whether
   the bus threw on the call after them.
   */
  method PublishBuffer(events: seq<Message>, published: nat, failAt: Option<nat>)
    returns (actions: seq<Action>, failed: bool)
    requires failAt.Some? ==> published <= failAt.value
    ensures |actions| <= |events|
    ensures forall k :: 0 <= k < |actions| ==> actions[k] == Publish(events[k])
    ensures failed ==> |actions| < |events| && failAt == Some(published + |actions|)
    ensures !failed ==> |actions| == |events| && (failAt.Some? ==> published + |actions| <= failAt.value)
  {
    actions := [];
    failed := false;
    while |actions| < |events|
      invariant |actions| <= |events|
      invariant forall k :: 0 <= k < |actions| ==> actions[k] == Publish(events[k])
      invariant failAt.Some? ==> published + |actions| <= failAt.value
    {
      if failAt == Some(published + |actions|) {
        failed := true;
        return;
      }
      actions := actions + [Publish(events[|actions|])];
    }
  }

  /** Publishes of the first events of a buffer, in order, are the start of its publish actions. */
  lemma PublishedPrefix(events: seq<Message>, actions: seq<Action>)
    requires |actions| <= |events|
    requires forall k :: 0 <= k < |actions| ==> actions[k] == Publish(events[k])
    ensures actions == PublishEach(events[..|actions|])
    ensures PublishCount(actions) == |actions|
  {
    NoLogsInPublishes(events[..|actions|]);
  }

  /** The batch is processed strictly in order: the trace of `xs + ys` is that of `xs`, then that of `ys`. */
  lemma {:induction false} TraceConcat(xs: seq<Message>, ys: seq<Message>)
    ensures Trace(xs + ys) == Trace(xs) + Trace(ys)
    decreases |xs|
  {
    if xs == [] {
      assert xs + ys == ys;
    } else {
      assert (xs + ys)[0] == xs[0];
      assert (xs + ys)[1..] == xs[1..] + ys;
      TraceConcat(xs[1..], ys);
    }
  }

  /** Processing item `i` extends the trace of the items before it by that item's actions. */
  lemma TraceStep(items: seq<Message>, i: nat)
    requires i < |items|
    ensures Trace(items[..i + 1]) == Trace(items[..i]) + ItemActions(items[i])
  {
    assert items[..i + 1] == items[..i] + [items[i]];
    TraceConcat(items[..i], [items[i]]);
    TraceOfOne(items[i]);
  }

  /** The trace of a batch split around item `i`. */
  lemma TraceAround(items: seq<Message>, i: nat)
    requires i < |items|
    ensures Trace(items) == Trace(items[..i]) + ItemActions(items[i]) + Trace(items[i + 1..])
  {
    var upTo, after := items[..i + 1], items[i + 1..];
    assert items == upTo + after;
    TraceConcat(upTo, after);
    TraceStep(items, i);
  }

  lemma TraceOfOne(m: Message)
    ensures Trace([m]) == ItemActions(m)
  {
    assert [m][1..] == [];
    assert Trace([m]) == ItemActions(m) + Trace([]);
  }

  lemma {:induction false} PublishCountConcat(s: seq<Action>, t: seq<Action>)
    ensures PublishCount(s + t) == PublishCount(s) + PublishCount(t)
    decreases |s|
  {
    if s == [] {
      assert s + t == t;
    } else {
      assert (s + t)[0] == s[0];
      assert (s + t)[1..] == s[1..] + t;
      PublishCountConcat(s[1..], t);
    }
  }

  lemma {:induction false} LogCountConcat(s: seq<Action>, t: seq<Action>)
    ensures LogCount(s + t) == LogCount(s) + LogCount(t)
    decreases |s|
  {
    if s == [] {
      assert s + t == t;
    } else {
      assert (s + t)[0] == s[0];
      assert (s + t)[1..] == s[1..] + t;
      LogCountConcat(s[1..], t);
    }
  }

  /**
   When the bus fails on the next publish of event `j` of entity item `i`,
   the actions so far are a prefix of the reference trace, the action after
   them is that publish, and the reference trace has more publishes.
   */
  lemma FailingCallIsNext(items: seq<Message>, i: nat, j: nat)
    requires i < |items| && items[i].Entity?
    requires j < |items[i].entity.DomainEvents()|
    ensures var events := items[i].entity.DomainEvents();
      var done := Trace(items[..i]) + PublishEach(events[..j]);
      && done <= Trace(items)
      && |done| < |Trace(items)|
      && Trace(items)[|done|] == Publish(events[j])
      && PublishCount(done) < PublishCount(Trace(items))
  {
    var events := items[i].entity.DomainEvents();
    var before := Trace(items[..i]);
    var after := Trace(items[i + 1..]);
    var rest := PublishEach(events[j..]) + after;
    assert Trace(items) == before + PublishEach(events) + after by {
      TraceAround(items, i);
    }
    PublishEachSplit(events, j);
    Regroup(Trace(items), before, PublishEach(events[..j]), PublishEach(events[j..]), after);
    PrefixBeforePublish(Trace(items), before + PublishEach(events[..j]), rest);
  }

  /**
   The bus threw on publish call `published + |actions|`, inside entity item
   `i`: the calls completed so far are a prefix of the reference trace that
   stops right before that publish, and the reference trace has more
   publishes than the failing call's number.
   */
  lemma FaultedInItem(items: seq<Message>, i: nat, actions: seq<Action>, published: nat, failAt: Option<nat>)
    requires i < |items| && items[i].Entity?
    requires |actions| < |items[i].entity.DomainEvents()|
    requires actions == PublishEach(items[i].entity.DomainEvents()[..|actions|])
    requires PublishCount(actions) == |actions|
    requires failAt == Some(published + |actions|)
    requires published == PublishCount(Trace(items[..i]))
    ensures var done := Trace(items[..i]) + actions;
      && done <= Trace(items)
      && PublishCount(done) == failAt.value
      && |done| < |Trace(items)|
      && Trace(items)[|done|].Publish?
      && PublishCount(Trace(items)) > failAt.value
  {
    FailingCallIsNext(items, i, |actions|);
    PublishCountConcat(Trace(items[..i]), actions);
  }

  lemma Regroup<A>(full: seq<A>, a: seq<A>, m1: seq<A>, m2: seq<A>, b: seq<A>)
    requires full == a + (m1 + m2) + b
    ensures full == (a + m1) + (m2 + b)
  {
  }

  /** A trace that splits as `done + rest` with `rest` starting with a publish. */
  lemma PrefixBeforePublish(full: seq<Action>, done: seq<Action>, rest: seq<Action>)
    requires full == done + rest
    requires rest != [] && rest[0].Publish?
    ensures done <= full && |done| < |full| && full[|done|] == rest[0]
    ensures PublishCount(done) < PublishCount(full)
  {
    PublishCountConcat(done, rest);
    assert rest == [rest[0]] + rest[1..];
    PublishCountConcat([rest[0]], rest[1..]);
  }

  lemma PublishEachSplit(events: seq<Message>, j: nat)
    requires j <= |events|
    ensures PublishEach(events) == PublishEach(events[..j]) + PublishEach(events[j..])
    ensures j < |events| ==> PublishEach(events[j..])[0] == Publish(events[j])
  {
    assert PublishEach(events[..j]) + PublishEach(events[j..]) == PublishEach(events);
  }

  /** A lone non-entity is never published and causes exactly one error log naming its type. */
  lemma NonEntityIsLoggedOnce(m: Message)
    requires !m.Entity?
    ensures Trace([m]) == [LogError(m.TypeName())]
    ensures PublishCount(Trace([m])) == 0 && LogCount(Trace([m])) == 1
  {
    assert [m][1..] == [];
  }

  /**
   A lone entity publishes each buffered event once, in buffer order, and
   logs nothing.
   */
  lemma EntityPublishesItsBuffer(e: EntityBase)
    ensures var t := Trace([Entity(e)]);
      && |t| == |e.DomainEvents()|
      && (forall i :: 0 <= i < |t| ==> t[i] == Publish(e.DomainEvents()[i]))
      && LogCount(t) == 0
  {
    var t := Trace([Entity(e)]);
    assert [Entity(e)][1..] == [];
    assert t == PublishEach(e.DomainEvents()) + Trace([]);
    assert t == PublishEach(e.DomainEvents());
    NoLogsInPublishes(e.DomainEvents());
  }

  lemma {:induction false} NoLogsInPublishes(events: seq<Message>)
    ensures LogCount(PublishEach(events)) == 0
    ensures PublishCount(PublishEach(events)) == |events|
    decreases |events|
  {
    if events != [] {
      NoLogsInPublishes(events[1..]);
      assert PublishEach(events)[1..] == PublishEach(events[1..]);
    }
  }

  /**
   A batch causes one publish per buffered event of its entities and one
   error log per item that is not an entity.
   */
  lemma {:induction false} TraceCounts(items: seq<Message>)
    ensures PublishCount(Trace(items)) == BufferedEventCount(items)
    ensures LogCount(Trace(items)) == NonEntityCount(items)
    decreases |items|
  {
    if items != [] {
      TraceCounts(items[1..]);
      PublishCountConcat(ItemActions(items[0]), Trace(items[1..]));
      LogCountConcat(ItemActions(items[0]), Trace(items[1..]));
      match items[0] {
        case Entity(e) => NoLogsInPublishes(e.DomainEvents());
        case Plain(_, _) =>
      }
    }
  }

  /**
   Publishing reads the buffers and never clears them, so handing the same
   batch over twice delivers every buffered event twice.
   */
  lemma RepublishingRedelivers(items: seq<Message>)
    ensures Trace(items + items) == Trace(items) + Trace(items)
    ensures PublishCount(Trace(items + items)) == 2 * BufferedEventCount(items)
  {
    TraceConcat(items, items);
    PublishCountConcat(Trace(items), Trace(items));
    TraceCounts(items);
  }

  /** An empty batch causes no call at all. */
  lemma EmptyBatch()
    ensures Trace([]) == []
    ensures PublishCount(Trace([])) == 0 && LogCount(Trace([])) == 0
  {
  }

  /**
   An entity with two events, then another message type, then an entity
   with no events: two publishes in buffer order, then one error log.
   */
  lemma MixedBatch(e1: Message, e2: Message, typeName: string)
    ensures var withTwo := AddDomainEvent(AddDomainEvent(NewEntity("Order"), e1), e2);
      var plain := NewNotification(typeName);
      var empty := NewEntity("Customer");
      Trace([Entity(withTwo), plain, Entity(empty)])
        == [Publish(e1), Publish(e2), LogError(typeName)]
  {
    var withTwo := AddDomainEvent(AddDomainEvent(NewEntity("Order"), e1), e2);
    var plain := NewNotification(typeName);
    var empty := NewEntity("Customer");
    var batch := [Entity(withTwo), plain, Entity(empty)];
    assert withTwo.DomainEvents() == [e1, e2];
    assert batch == [Entity(withTwo)] + [plain] + [Entity(empty)];
    TraceConcat([Entity(withTwo)] + [plain], [Entity(empty)]);
    TraceConcat([Entity(withTwo)], [plain]);
    EntityPublishesItsBuffer(withTwo);
    NonEntityIsLoggedOnce(plain);
    EntityPublishesItsBuffer(empty);
  }
}
