/**
 * The event profiler's tree: each block has one child per event ID, found or appended by
 * GetChild; BeginBlock descends to that child on the main thread. Event IDs are string
 * hashes, modelled as naturals.
 */
module EventProfiler {
  import opened Str

  /** The position of the first child with this event ID, if any. */
  function FindChild(children: seq<EventProfilerBlock>, eventID: nat, from: nat := 0): (r: Option<nat>)
    requires from <= |children|
    ensures r.Some? ==> from <= r.value < |children| && children[r.value].eventID == eventID &&
                        forall k :: from <= k < r.value ==> children[k].eventID != eventID
    ensures r.None? <==> forall k :: from <= k < |children| ==> children[k].eventID != eventID
    decreases |children| - from
  {
    if from == |children| then None
    else if children[from].eventID == eventID then Some(from)
    else FindChild(children, eventID, from + 1)
  }

  /** No two children share an event ID. */
  predicate DistinctIds(children: seq<EventProfilerBlock>)
  {
    forall i, j :: 0 <= i < j < |children| ==> children[i].eventID != children[j].eventID
  }

  /** Appending a child whose ID is new keeps the IDs distinct. */
  lemma AppendDistinct(children: seq<EventProfilerBlock>, child: EventProfilerBlock)
    requires DistinctIds(children) && FindChild(children, child.eventID).None?
    ensures DistinctIds(children + [child])
  {
    var r := children + [child];
    forall i, j | 0 <= i < j < |r|
      ensures r[i].eventID != r[j].eventID
    {
      if j == |children| {
        assert r[i] == children[i];
      } else {
        assert r[i] == children[i] && r[j] == children[j];
      }
    }
  }

  class EventProfilerBlock {
    const parent: EventProfilerBlock?
    const eventID: nat
    var children: seq<EventProfilerBlock>

    constructor(parent: EventProfilerBlock?, eventID: nat)
      ensures this.parent == parent && this.eventID == eventID && children == []
    {
      this.parent := parent;
      this.eventID := eventID;
      children := [];
    }

    /**
     * GetChild: the first child with the event ID, leaving the children alone; otherwise a new
     * block under this one, appended last. The children's IDs stay distinct.
     */
    method GetChild(eventID: nat) returns (child: EventProfilerBlock)
      modifies this`children
      ensures child.eventID == eventID
      ensures FindChild(old(children), eventID).Some? ==>
                children == old(children) && child == old(children)[FindChild(old(children), eventID).value]
      ensures FindChild(old(children), eventID).None? ==>
                fresh(child) && child.parent == this && child.children == [] && children == old(children) + [child]
      ensures DistinctIds(old(children)) ==> DistinctIds(children)
    {
      for i := 0 to |children|
        invariant forall k :: 0 <= k < i ==> children[k].eventID != eventID
      {
        if children[i].eventID == eventID {
          assert FindChild(children, eventID) == Some(i);
          return children[i];
        }
      }
      child := new EventProfilerBlock(this, eventID);
      if DistinctIds(children) {
        AppendDistinct(children, child);
      }
      children := children + [child];
    }
  }

  class EventProfiler {
    const root: EventProfilerBlock
    var current: EventProfilerBlock
    /** The process-wide switch SetActive and IsActive share; off by default. */
    var active: bool

    constructor()
      ensures current == root && fresh(root) && root.parent == null && root.children == [] && !active
    {
      root := new EventProfilerBlock(null, 0);
      current := root;
      active := false;
    }

    method SetActive(newActive: bool)
      modifies this`active
      ensures active == newActive
    {
      active := newActive;
    }

    method IsActive() returns (isActive: bool)
      ensures isActive == active
    {
      return active;
    }

    /** BeginBlock: on the main thread, descend to the current block's child for the event; elsewhere do nothing. */
    method BeginBlock(eventID: nat, mainThread: bool)
      modifies this`current, current`children
      ensures !mainThread ==> current == old(current) && old(current).children == old(current.children)
      ensures mainThread ==> current.eventID == eventID && current in old(current).children
      ensures mainThread && FindChild(old(current.children), eventID).None? ==>
                fresh(current) && current.parent == old(current) && old(current).children == old(current.children) + [current]
      ensures mainThread && FindChild(old(current.children), eventID).Some? ==>
                old(current).children == old(current.children) &&
                current == old(current.children)[FindChild(old(current.children), eventID).value]
    {
      if !mainThread {
        return;
      }
      current := current.GetChild(eventID);
    }
  }
}
