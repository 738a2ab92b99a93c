/** `BaseEntity`: the buffer of domain events an entity raises during a
    business operation, drained by a dispatcher once they are handled. */
module Entities {

  /** The `List<IDomainEvent>` behind the buffer; `DomainEvents` hands out a
      read-only view of this same object, not a copy. */
  class EventList<Event> {
    var items: seq<Event>

    constructor ()
      ensures items == []
    {
      items := [];
    }
  }

  class BaseEntity<Event> {
    /** The private `_domainEvents` list: null until the first event is added. */
    var domainEvents: EventList?<Event>

    /** A fresh entity has no list at all. */
    constructor ()
      ensures domainEvents == null && DomainEvents() == null
    {
      domainEvents := null;
    }

    /** `DomainEvents`: a live read-only view of the list itself, null while
        there is no list; whoever holds it sees later adds and clears. */
    function DomainEvents(): (view: EventList?<Event>)
      reads this
      ensures view == domainEvents
    {
      domainEvents
    }

    /** `ClearDomainEvents`: empties the list in place; without a list it does nothing. */
    method ClearDomainEvents()
      modifies domainEvents
      ensures domainEvents == old(domainEvents)
      ensures domainEvents != null ==> domainEvents.items == []
    {
      if domainEvents != null {
        domainEvents.items := [];
      }
    }

    /** `AddDomainEvent`: creates the list if needed, then appends the event at
        the end; an existing list stays the same object. */
    method AddDomainEvent(domainEvent: Event)
      modifies this, domainEvents
      ensures domainEvents != null
      ensures old(domainEvents) != null ==>
        domainEvents == old(domainEvents) && domainEvents.items == old(domainEvents.items) + [domainEvent]
      ensures old(domainEvents) == null ==> fresh(domainEvents) && domainEvents.items == [domainEvent]
    {
      if domainEvents == null {
        domainEvents := new EventList<Event>();
      }
      domainEvents.items := domainEvents.items + [domainEvent];
    }
  }

  /** Events come back in the order they were added, and clearing empties the
      list; a view taken before the clear is emptied with it. */
  method EventBufferScenario<Event>(first: Event, second: Event)
  {
    var entity := new BaseEntity<Event>();
    entity.ClearDomainEvents();
    assert entity.DomainEvents() == null;
    entity.AddDomainEvent(first);
    entity.AddDomainEvent(second);
    var view := entity.DomainEvents();
    assert view != null && view.items == [first, second];
    entity.ClearDomainEvents();
    assert view.items == [];
  }
}
