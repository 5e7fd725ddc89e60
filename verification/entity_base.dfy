/**
 Notification messages and the entity base.

 Every object handed to the notification bus is a notification message. An
 entity is a notification message that also carries an integer identity and
 an append-only buffer of pending domain events. The runtime test
 "is this message an entity?" becomes the closed variant `Message`.
 */
module Entities {
  import opened Optional

  /** C#'s `int`: the type of an entity's `Id`. */
  newtype Int32 = x: int | -0x8000_0000 <= x < 0x8000_0000

  /** The text every notification message starts with. */
  const DefaultNotificationMessage: string := "Default message."

  /** A notification message: either an entity or any other message type. */
  datatype Message =
    | Entity(entity: EntityBase)
    | Plain(typeName: string, notificationMessage: Option<string>)
  {
    /** The `NotificationMessage` property every message inherits. */
    function NotificationMessage(): Option<string> {
      match this
      case Entity(e) => e.notificationMessage
      case Plain(_, m) => m
    }

    /** The name of the message's concrete type, as `GetType().Name` reports it. */
    function TypeName(): string {
      match this
      case Entity(e) => e.typeName
      case Plain(name, _) => name
    }
  }

  /**
   The state of an entity: its concrete type, the inherited notification
   message, its `Id` and the private event buffer.
   */
  datatype EntityBase = EntityBase(
    typeName: string,
    notificationMessage: Option<string>,
    id: Int32,
    buffer: seq<Message>)
  {
    /** The public read-only view of the buffer: the same events in the same order. */
    function DomainEvents(): (r: seq<Message>)
      ensures |r| == |buffer|
      ensures forall i :: 0 <= i < |r| ==> r[i] == buffer[i]
    {
      buffer
    }
  }

  /** A message that is not an entity, as its base constructor leaves it. */
  function NewNotification(typeName: string): (m: Message)
    ensures !m.Entity?
    ensures m.TypeName() == typeName
    ensures m.NotificationMessage() == Some(DefaultNotificationMessage)
  {
    Plain(typeName, Some(DefaultNotificationMessage))
  }

  /** The parameterless constructor: `Id` keeps its default. */
  function NewEntity(typeName: string): (e: EntityBase)
    ensures e.id == 0
    ensures e.DomainEvents() == []
    ensures e.notificationMessage == Some(DefaultNotificationMessage)
    ensures e.typeName == typeName
  {
    EntityBase(typeName, Some(DefaultNotificationMessage), 0, [])
  }

  /** The constructor taking an id. */
  function NewEntityWithId(typeName: string, id: Int32): (e: EntityBase)
    ensures e.id == id
    ensures e.DomainEvents() == []
    ensures e.notificationMessage == Some(DefaultNotificationMessage)
    ensures e.typeName == typeName
  {
    EntityBase(typeName, Some(DefaultNotificationMessage), id, [])
  }

  /**
   Appends one event. The earlier events keep their positions, the new one
   is last, and nothing else about the entity changes.
   */
  function AddDomainEvent(e: EntityBase, event: Message): (r: EntityBase)
    ensures |r.DomainEvents()| == |e.DomainEvents()| + 1
    ensures r.DomainEvents()[..|e.DomainEvents()|] == e.DomainEvents()
    ensures r.DomainEvents()[|e.DomainEvents()|] == event
    ensures r.id == e.id
    ensures r.notificationMessage == e.notificationMessage
    ensures r.typeName == e.typeName
  {
    e.(buffer := e.buffer + [event])
  }

  /**
   Everything a subclass can do to the state it inherits: append an event,
   assign `Id` or assign `NotificationMessage` (both have protected setters).
   There is no operation that removes, clears or reorders events.
   */
  datatype EntityOp =
    | AddEvent(event: Message)
    | SetId(newId: Int32)
    | SetNotificationMessage(text: Option<string>)

  function Apply(e: EntityBase, op: EntityOp): EntityBase {
    match op
    case AddEvent(ev) => AddDomainEvent(e, ev)
    case SetId(i) => e.(id := i)
    case SetNotificationMessage(t) => e.(notificationMessage := t)
  }

  /** Runs a subclass's operations in order. */
  function Run(e: EntityBase, ops: seq<EntityOp>): EntityBase
    decreases |ops|
  {
    if ops == [] then e else Run(Apply(e, ops[0]), ops[1..])
  }

  /** The events the `AddEvent` steps of `ops` append, in order. */
  function AddedEvents(ops: seq<EntityOp>): seq<Message> {
    if ops == [] then []
    else (if ops[0].AddEvent? then [ops[0].event] else []) + AddedEvents(ops[1..])
  }

  /** True when no step of `ops` assigns `Id`. */
  predicate KeepsId(ops: seq<EntityOp>) {
    forall i :: 0 <= i < |ops| ==> !ops[i].SetId?
  }

  /**
   The buffer only grows at the end: whatever a subclass does, the events
   that were there stay, in their order, followed by exactly the events it
   added.
   */
  lemma {:induction false} RunOnlyAppends(e: EntityBase, ops: seq<EntityOp>)
    ensures Run(e, ops).DomainEvents() == e.DomainEvents() + AddedEvents(ops)
    decreases |ops|
  {
    if ops != [] {
      var e' := Apply(e, ops[0]);
      var head := if ops[0].AddEvent? then [ops[0].event] else [];
      assert e'.DomainEvents() == e.DomainEvents() + head;
      assert AddedEvents(ops) == head + AddedEvents(ops[1..]);
      RunOnlyAppends(e', ops[1..]);
      assert Run(e, ops) == Run(e', ops[1..]);
    }
  }

  /**
   The concrete type never changes, and `Id` changes only by an explicit
   assignment.
   */
  lemma {:induction false} RunKeepsIdentity(e: EntityBase, ops: seq<EntityOp>)
    ensures Run(e, ops).typeName == e.typeName
    ensures KeepsId(ops) ==> Run(e, ops).id == e.id
    decreases |ops|
  {
    if ops != [] {
      var e' := Apply(e, ops[0]);
      if KeepsId(ops) {
        assert !ops[0].SetId?;
        forall i | 0 <= i < |ops[1..]| ensures !ops[1..][i].SetId? {
          assert ops[1..][i] == ops[i + 1];
        }
      }
      RunKeepsIdentity(e', ops[1..]);
    }
  }

  /**
   A fresh entity (either constructor) that receives one event holds exactly
   that event, keeps its id, and is itself a notification message with the
   default text.
   */
  lemma FreshEntityWithOneEvent(typeName: string, id: Int32, event: Message)
    ensures var e := AddDomainEvent(NewEntity(typeName), event);
      e.DomainEvents() == [event] && e.id == 0
      && Entity(e).NotificationMessage() == Some(DefaultNotificationMessage)
    ensures var e := AddDomainEvent(NewEntityWithId(typeName, id), event);
      e.DomainEvents() == [event] && e.id == id
      && Entity(e).NotificationMessage() == Some(DefaultNotificationMessage)
  {
  }

  /**
   A subclass that assigns a fresh id and then records one event: the entity
   holds exactly that event and carries the assigned id.
   */
  lemma AssignIdThenAddEvent(typeName: string, newId: Int32, event: Message)
    ensures var e := Run(NewEntity(typeName), [SetId(newId), AddEvent(event)]);
      e.DomainEvents() == [event] && e.id == newId
      && Entity(e).NotificationMessage() == Some(DefaultNotificationMessage)
  {
    var ops := [SetId(newId), AddEvent(event)];
    var e0 := NewEntity(typeName);
    var e1 := Apply(e0, SetId(newId));
    var e2 := Apply(e1, AddEvent(event));
    assert ops[1..] == [AddEvent(event)];
    assert ops[1..][1..] == [];
    assert Run(e0, ops) == Run(e1, ops[1..]);
    assert Run(e1, ops[1..]) == Run(e2, []);
  }
}
