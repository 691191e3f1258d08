/** The single-child container of tdcornerlayout.c (TDCornerLayout): it
    holds at most one child actor and allocates it at its natural size in
    the top-right corner of its own allocation. */
module Corner {

  /** An actor allocation, in Clutter units. */
  datatype ActorBox = ActorBox(x1: int, y1: int, x2: int, y2: int)

  /** The parts of a child actor the layout uses or changes. */
  class Actor {
    /** Whether the actor is shown (CLUTTER_ACTOR_IS_VISIBLE). */
    var visible: bool
    /** The container the actor is parented to, if any. */
    var parent: CornerLayout?
    /** The actor's natural size (clutter_actor_get_preferred_size). */
    var naturalWidth: int
    var naturalHeight: int
    /** The last allocation the actor was given. */
    var allocation: ActorBox

    constructor (visible: bool, naturalWidth: int, naturalHeight: int)
      ensures this.visible == visible && parent == null
      ensures this.naturalWidth == naturalWidth && this.naturalHeight == naturalHeight
      ensures allocation == ActorBox(0, 0, 0, 0)
    {
      this.visible := visible;
      parent := null;
      this.naturalWidth := naturalWidth;
      this.naturalHeight := naturalHeight;
      allocation := ActorBox(0, 0, 0, 0);
    }
  }

  /** The child's allocation inside the container allocation `box`: its
      natural size, with its top edge at 0 and its right edge on the
      container's right edge. */
  function ChildBox(box: ActorBox, naturalWidth: int, naturalHeight: int): (c: ActorBox)
    ensures c.x2 == box.x2 && c.y1 == 0
    ensures c.x2 - c.x1 == naturalWidth && c.y2 - c.y1 == naturalHeight
  {
    ActorBox(box.x2 - naturalWidth, 0, box.x2, naturalHeight)
  }

  class CornerLayout {
    /** The one child slot; null when empty. */
    var child: Actor?
    /** The container's own allocation. */
    var allocation: ActorBox
    /** How many relayouts the container has queued. */
    var relayouts: nat
    /** How many "can not add multiple actors" warnings were emitted. */
    var warnings: nat

    /** The child, when there is one, is parented to this container. */
    ghost predicate Valid()
      reads this, child
    {
      child != null ==> child.parent == this
    }

    /** td_corner_layout_init: the slot starts empty. */
    constructor ()
      ensures Valid() && child == null
      ensures allocation == ActorBox(0, 0, 0, 0) && relayouts == 0 && warnings == 0
    {
      child := null;
      allocation := ActorBox(0, 0, 0, 0);
      relayouts := 0;
      warnings := 0;
    }

    /** td_corner_layout_real_add: an empty slot takes the actor, parents
        it and queues a relayout; a full slot only warns. */
    method Add(actor: Actor)
      requires Valid()
      modifies this, actor
      ensures Valid() && allocation == old(allocation)
      ensures old(child) == null ==>
                child == actor && actor.parent == this
                && relayouts == old(relayouts) + 1 && warnings == old(warnings)
      ensures old(child) != null ==>
                child == old(child) && unchanged(actor)
                && relayouts == old(relayouts) && warnings == old(warnings) + 1
      ensures actor.visible == old(actor.visible) && actor.allocation == old(actor.allocation)
      ensures actor.naturalWidth == old(actor.naturalWidth)
      ensures actor.naturalHeight == old(actor.naturalHeight)
    {
      if child != null {
        warnings := warnings + 1;
        return;
      }
      child := actor;
      actor.parent := this;
      relayouts := relayouts + 1;
    }

    /** td_corner_layout_real_remove: removing the child empties the slot
        and unparents it; removing any other actor changes nothing. */
    method Remove(actor: Actor)
      requires Valid()
      modifies this, actor
      ensures Valid()
      ensures allocation == old(allocation) && relayouts == old(relayouts)
      ensures warnings == old(warnings)
      ensures old(child) == actor ==> child == null && actor.parent == null
      ensures old(child) != actor ==> child == old(child) && unchanged(actor)
      ensures actor.visible == old(actor.visible) && actor.allocation == old(actor.allocation)
      ensures actor.naturalWidth == old(actor.naturalWidth)
      ensures actor.naturalHeight == old(actor.naturalHeight)
    {
      if actor == child {
        child := null;
        actor.parent := null;
      }
    }

    /** td_corner_layout_real_foreach: the actors the callback is invoked
        on, in order. */
    method Foreach() returns (visited: seq<Actor>)
      ensures |visited| <= 1
      ensures child != null <==> visited == [child]
      ensures child == null <==> visited == []
    {
      visited := [];
      if child != null {
        visited := [child];
      }
    }

    /** td_corner_layout_dispose: the child, if any, is removed, leaving the
        slot empty. */
    method Dispose()
      requires Valid()
      modifies this, child
      ensures Valid() && child == null
      ensures old(child) != null ==> old(child).parent == null
      ensures old(child) != null ==>
                && old(child).visible == old(child.visible)
                && old(child).allocation == old(child.allocation)
                && old(child).naturalWidth == old(child.naturalWidth)
                && old(child).naturalHeight == old(child.naturalHeight)
      ensures allocation == old(allocation) && relayouts == old(relayouts)
      ensures warnings == old(warnings)
    {
      if child != null {
        Remove(child);
      }
    }

    /** td_corner_layout_allocate: the container records its own box, and
        the child, if any, is allocated at its natural size in the top-right
        corner. */
    method Allocate(box: ActorBox)
      requires Valid()
      modifies this, child
      ensures Valid() && allocation == box && child == old(child)
      ensures relayouts == old(relayouts) && warnings == old(warnings)
      ensures child != null ==>
                child.allocation == ChildBox(box, child.naturalWidth, child.naturalHeight)
                && child.parent == old(child.parent) && child.visible == old(child.visible)
                && child.naturalWidth == old(child.naturalWidth)
                && child.naturalHeight == old(child.naturalHeight)
    {
      allocation := box;
      if child != null {
        var naturalWidth := child.naturalWidth;
        var naturalHeight := child.naturalHeight;
        var childBox := ActorBox(box.x2 - naturalWidth, 0, box.x2, naturalHeight);
        child.allocation := childBox;
      }
    }

    /** td_corner_layout_paint: the actor painted, which is the child only
        when there is one and it is visible. */
    method Paint() returns (painted: Actor?)
      ensures painted != null <==> child != null && child.visible
      ensures painted != null ==> painted == child
    {
      painted := null;
      if child != null && child.visible {
        painted := child;
      }
    }
  }

  /** After adding to an empty layout and removing the same actor, the
      layout is empty again and the actor is unparented. */
  method AddThenRemove(layout: CornerLayout, actor: Actor)
    requires layout.Valid() && layout.child == null
    modifies layout, actor
    ensures layout.Valid() && layout.child == null && actor.parent == null
    ensures layout.relayouts == old(layout.relayouts) + 1
  {
    layout.Add(actor);
    layout.Remove(actor);
  }
}
