# Domain primitives: entities, domain-event publishing and value objects

A Dafny model of the core of a small domain-modelling toolkit (C#):

- **Entities** (`entity_base.dfy`, module `Entities`). Every object that can go
  onto the notification bus is a notification message whose
  `NotificationMessage` text defaults to `"Default message."`. An entity is a
  notification message with an `Id` (a C# `int`, here `Int32`) and a private,
  append-only buffer of domain events exposed through a read-only view
  `DomainEvents()`. The runtime test "is this message an entity?" is the closed
  variant `Message = Entity(EntityBase) | Plain(typeName, notificationMessage)`.
  The protected members a subclass may use (append an event, assign `Id`,
  assign `NotificationMessage`) are the operations `EntityOp`; none of them
  removes, clears or reorders events.
- **Domain-event publisher** (`domain_event_publisher.dfy`, module
  `Publisher`). The external notification bus and logger become a trace of
  `Publish(message)` / `LogError(typeName)` actions. `Trace` is the reference
  trace of a batch; `PublishDomainEvents` mirrors the nested loops of
  `PublishDomainEventsAsync` and takes `failAt`, the number of the publish call
  on which the bus throws (or `None`). Since there is no `try`/`catch`, a
  failure abandons the rest of the batch. The publisher keeps no state: given
  each buffer as the loop reaches its item, its result depends only on the
  batch and on where the bus fails, and the contract of `PublishDomainEvents`
  pins the trace down uniquely from those two.
- **Value objects** (`value_object.dfy`, module `ValueObjects`). A value object
  is its concrete type (an explicit tag) plus its ordered equality components.
  `Equals`, `GetHashCode` (left fold from seed 1 with `acc * 23 + h(c)`),
  `operator ==` and `operator !=`. A component's own hash code is the
  parameter `h`. Hash codes are the 32 bits of the C# `int` read as a number in
  [0, 2^32), and the `unchecked` wrap-around is an explicit `% 2^32`.
- `optional.dfy` (module `Optional`): `Option`, standing for C# `null`.

The non-entity branch logs at error level
(`DomainEventPublisher.cs:37`), so the action is `LogError`. The publisher
reads a snapshot of each buffer (line 28) and never clears it, so handing the
same batch over twice delivers its events twice
(`Publisher.RepublishingRedelivers`).

## Model

| member | source | states |
|---|---|---|
| Entities.NewNotification | src/Ghanavats.Domain.Primitives/DomainEventMechanism/DomainNotificationMessageBase.cs:9-12 | a notification message that is not an entity starts with the text "Default message." |
| Entities.EntityBase.DomainEvents | src/Ghanavats.Domain.Primitives/EntityBase.cs:11-14 | the public read-only view holds the buffer's events, all of them and in the same order |
| Entities.NewEntity | src/Ghanavats.Domain.Primitives/EntityBase.cs:11-19 | the parameterless constructor leaves `Id` at 0, the buffer empty and the inherited text at "Default message." |
| Entities.NewEntityWithId | src/Ghanavats.Domain.Primitives/EntityBase.cs:21-24 | the `(int id)` constructor sets `Id` to `id`, with an empty buffer and the default text |
| Entities.AddDomainEvent | src/Ghanavats.Domain.Primitives/EntityBase.cs:26-29 | the buffer grows by one, with the earlier events unchanged and in place and the new event last; `Id`, text and type are unchanged |
| Entities.RunOnlyAppends | src/Ghanavats.Domain.Primitives/EntityBase.cs:11-29 | after any sequence of protected operations, the read-only view is the old buffer followed by exactly the added events, in order: nothing is removed, cleared or reordered |
| Entities.RunKeepsIdentity | src/Ghanavats.Domain.Primitives/EntityBase.cs:16 | the concrete type never changes, and `Id` changes only through its protected setter |
| Entities.FreshEntityWithOneEvent | src/Ghanavats.Domain.Primitives/EntityBase.cs:16-29 | a new entity given one event holds exactly that event and keeps its id (0, or the one passed in); as a message its text is "Default message." |
| Entities.AssignIdThenAddEvent | tests/Ghanavats.Domain.Primitives.Tests/DomainNotificationTestHelpers/DummyEntity.cs:5-11 | a subclass that assigns an id and then adds one event holds exactly that event, carries the assigned id and keeps the text "Default message." |
| ValueObjects.SequenceEqual | src/Ghanavats.Domain.Primitives/ValueObject.cs:35 | the stepwise comparison holds iff the lists have equal length and are equal at every position |
| ValueObjects.Equals | src/Ghanavats.Domain.Primitives/ValueObject.cs:25-36 | false for null and for a different concrete type, even with the same components; for the same type, true iff the components are equal pairwise in order; overall, true iff the other operand is the same value |
| ValueObjects.EqualOperator | src/Ghanavats.Domain.Primitives/ValueObject.cs:62-85 | `==` is true for two nulls and false for exactly one null; on two non-nulls it coincides with `Equals`, because the reference shortcut adds nothing |
| ValueObjects.NotEqualOperator | src/Ghanavats.Domain.Primitives/ValueObject.cs:87-90 | `!=` is the negation of `==` for every pair of operands, i.e. true iff the operands differ |
| ValueObjects.GetHashCode | src/Ghanavats.Domain.Primitives/ValueObject.cs:44-54 | the hash code is the unbounded left fold `acc * 23 + h(c)` from seed 1 over the components, reduced mod 2^32 (the unchecked 32-bit arithmetic) |
| ValueObjects.AggregateIsWrappedFold | src/Ghanavats.Domain.Primitives/ValueObject.cs:46-53 | wrapping to 32 bits at every step of the fold gives the unbounded-integer fold reduced mod 2^32 |
| ValueObjects.HashOfShortLists | src/Ghanavats.Domain.Primitives/ValueObject.cs:44-54 | no components hash to 1; `[a, b]` hashes to `((23 + h(a)) * 23 + h(b)) mod 2^32` |
| ValueObjects.AggregateSnoc | src/Ghanavats.Domain.Primitives/ValueObject.cs:46-53 | the fold runs left to right: appending a component combines it into the hash of the others last |
| ValueObjects.EqualImpliesEqualHash | src/Ghanavats.Domain.Primitives/ValueObject.cs:38-54 | equal value objects have equal hash codes, for any component hash that is a function of the component |
| ValueObjects.ReorderingMatters | src/Ghanavats.Domain.Primitives/ValueObject.cs:35-53 | swapping two different components makes the objects unequal; with identity-hashed integers, `[0, 1]` and `[1, 0]` hash to 530 and 552 |
| Publisher.PublishDomainEvents | src/Ghanavats.Domain.Primitives/DomainEventMechanism/DomainEventPublisher.cs:22-41 | the completed calls are always a prefix of the reference trace. The batch completes, with the whole trace, iff the bus never fails within it. Otherwise the prefix stops right before the failing publish, and its publish count is the index of that call |
| Publisher.PublishItem | src/Ghanavats.Domain.Primitives/DomainEventMechanism/DomainEventPublisher.cs:26-39 | one item either yields its reference actions, or it is an entity whose first events were published before the bus threw on the next one |
| Publisher.PublishBuffer | src/Ghanavats.Domain.Primitives/DomainEventMechanism/DomainEventPublisher.cs:28-33 | the inner loop publishes the snapshot's events in buffer order; it stops exactly at the failing call, and otherwise publishes every event |
| Publisher.TraceConcat | src/Ghanavats.Domain.Primitives/DomainEventMechanism/DomainEventPublisher.cs:24-40 | the trace of `xs + ys` is the trace of `xs` followed by that of `ys`: items are processed strictly in input order |
| Publisher.FailingCallIsNext | src/Ghanavats.Domain.Primitives/DomainEventMechanism/DomainEventPublisher.cs:32 | when the bus throws on event `j` of item `i`, the completed calls are a prefix of the reference trace, and that publish is the next action |
| Publisher.NonEntityIsLoggedOnce | src/Ghanavats.Domain.Primitives/DomainEventMechanism/DomainEventPublisher.cs:35-38 | a non-entity is never published and produces exactly one error log, naming its type |
| Publisher.EntityPublishesItsBuffer | src/Ghanavats.Domain.Primitives/DomainEventMechanism/DomainEventPublisher.cs:26-33 | an entity publishes each buffered event once, in buffer order, and logs nothing |
| Publisher.TraceCounts | src/Ghanavats.Domain.Primitives/DomainEventMechanism/DomainEventPublisher.cs:24-39 | the publish count is the sum of the entities' buffer lengths; the log count is the number of non-entities |
| Publisher.RepublishingRedelivers | src/Ghanavats.Domain.Primitives/DomainEventMechanism/DomainEventPublisher.cs:28-33 | publishing never clears a buffer, so the same batch twice gives the same trace twice, with twice the publishes (when the bus's handlers leave the batch's entities unchanged) |
| Publisher.EmptyBatch | tests/Ghanavats.Domain.Primitives.Tests/DomainEventMechanismTests/DomainEventPublisherTests.cs:22-28 | an empty batch causes no publish and no log |
| Publisher.MixedBatch | src/Ghanavats.Domain.Primitives/DomainEventMechanism/DomainEventPublisher.cs:24-40 | the batch `[entity with two events, other message, entity with none]` gives two publishes in buffer order, then one error log |

## Left out

- Dependency-injection registration (`DomainEventPublisherExtensions.cs`, `ServiceRegistration.cs`) and `AggregateRootAttribute`: library plumbing and a metadata tag with no behaviour.
- `IDomainEventPublisher` is only a signature; its one operation is `Publisher.PublishDomainEvents`.
- The publisher's constructor and `CheckForNull`: the extension that defines it is not part of this model, and the mediator and logger are represented only by the trace actions.
- `async`/`await`, `Task` and `CancellationToken`: the publisher is synchronous. A cancelled or failing dispatch is the `failAt` publish call, and it abandons the batch the same way.
- The log message template: a log action records only the offending type's name.
- Runtime reflection: `GetType()` is an explicit type tag or type-name string. `ReferenceEquals` between two non-null value objects is modelled as structural equality. This changes no result of `==`, because structurally equal operands are `Equals` anyway (`ValueObjects.EqualOperator`).
- A subclass overriding the virtual `Equals` is not modelled; the model uses the base class's definition.
- Null equality components: `GetEqualityComponents` is declared to yield non-nullable `object`, so components are plain values and `h` is total. A null component would make the source's `GetHashCode` throw.
- A `null` event passed to `AddDomainEvent`, a null or lazily evaluated batch, and a null item inside a batch are not modelled: the parameters are declared with non-nullable reference types, so batches and buffers are finite sequences of values. On a null item the source would throw at `domainEvent.GetType()` after processing the earlier items, a failure point that `failAt` (which counts publish calls) does not express.
- Publisher.EntityPublishesItsBuffer: does not cover an entity whose buffer contains the entity itself (a subclass calling `AddDomainEvent(this)`): the datatypes are acyclic, so such self-containing event graphs cannot be represented, and the publisher would publish that entity.
- Hash codes are modelled as the unsigned reading of the 32 bits. The C# `int` is the two's-complement reading of the same bits.
- The notification handlers the bus runs on each publish are assumed not to change any entity in the batch. The source reads an entity's buffer only when the loop reaches that item (`DomainEventPublisher.cs:28`), and each awaited publish (line 32) runs the handlers first. So a handler that adds an event to a later entity of the batch, or to an entity that appears twice, would get that event published in the same batch. `Trace` reads every buffer as it was when the batch was built, and the same assumption underlies `Publisher.RepublishingRedelivers`.
- Concurrency: the buffer `_domainEvents` is a plain `List<T>` with no locking (`EntityBase.cs:11`), and concurrent calls on one entity are not modelled. The publisher issues its calls one at a time.
- EF Core `[NotMapped]` attributes, and the random ids used by the test helpers.
