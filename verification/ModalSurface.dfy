/**
  * app/_components/modal-surface.ts: overlapping modal surfaces make everything outside them
  * inert and lock the body's scrolling, with reference counts, and undo it in any order.
  */
module ModalSurface {
  import opened Wrappers

  /** A node of the document. The parts that page code may change are variables. */
  class Element {
    const isHtml: bool
    var parent: Element?
    var children: seq<Element>
    var classes: set<string>
    var inert: bool

    constructor (isHtml: bool)
      ensures this.isHtml == isHtml && parent == null && children == [] && classes == {} && !inert
    {
      this.isHtml, parent, children, classes, inert := isHtml, null, [], {}, false;
    }
  }

  // ---------- The tree around a container ----------

  /** `path` climbs from its first element to a root, one parent at a time, never twice through one. */
  ghost predicate ParentChain(path: seq<Element>)
    reads path`parent
  {
    && path != [] && path[|path| - 1].parent == null
    && (forall i | 0 <= i < |path| - 1 :: path[i].parent == path[i + 1])
    && (forall i, j | 0 <= i < j < |path| :: path[i] != path[j])
  }

  /** The children of `e` name it as their parent and occur once each. */
  ghost predicate ChildrenLinked(e: Element)
    reads e`children, e.children`parent
  {
    && (forall c | c in e.children :: c.parent == e)
    && (forall i, j | 0 <= i < j < |e.children| :: e.children[i] != e.children[j])
  }

  ghost predicate TreeAround(path: seq<Element>, elements: set<Element>)
    reads path`parent, path`children, elements`parent
  {
    && ParentChain(path)
    && (forall e | e in path :: e in elements && (forall c | c in e.children :: c in elements))
    && (forall e | e in path :: ChildrenLinked(e))
  }

  /** How far the walk climbs: to the body, or to the root of a detached container. */
  ghost predicate ClimbsTo(path: seq<Element>, body: Element, top: nat) {
    && top < |path|
    && (forall i | 0 <= i < top :: path[i] != body)
    && (path[top] == body || top == |path| - 1)
  }

  /** A sibling the install considers at level `i`: HTML, and without an excluded class. */
  ghost predicate Candidate(e: Element, path: seq<Element>, i: nat, excluded: set<string>)
    requires i + 1 < |path|
    reads path`children, e`classes
  {
    e in path[i + 1].children && e != path[i] && e.isHtml && e.classes !! excluded
  }

  /** A sibling of the container, or of one of the ancestors that the walk passes below its top. */
  ghost predicate IsSibling(e: Element, path: seq<Element>, top: nat)
    requires top < |path|
    reads path`children
  {
    exists i | 0 < i <= top :: e in path[i].children && e != path[i - 1]
  }

  ghost predicate Outside(e: Element, path: seq<Element>, top: nat, excluded: set<string>)
    requires top < |path|
    reads path`children, e`classes
  {
    exists i | 0 <= i < top :: Candidate(e, path, i, excluded)
  }

  function Max(a: int, b: int): (m: int)
    ensures m >= a && m >= b && (m == a || m == b)
  {
    if a >= b then a else b
  }

  // ---------- Surfaces and their counts ----------

  /** One installed surface: what its release closure captured. */
  class Surface {
    const managed: seq<Element>

    constructor (managed: seq<Element>)
      ensures this.managed == managed
    {
      this.managed := managed;
    }
  }

  /** An install with its container's chain of parents, or a release of the surface opened in that place. */
  datatype Operation =
    | Open(container: Element, excluded: set<string>, ghost path: seq<Element>, ghost top: nat)
    | Close(index: nat)

  ghost function PathOf(operation: Operation): seq<Element> {
    if operation.Open? then operation.path else []
  }

  /** The open surfaces that manage an element. */
  ghost function Managers(surfaces: set<Surface>, e: Element): set<Surface> {
    set s | s in surfaces && e in s.managed
  }

  ghost function Listed(e: Element, pending: seq<Element>): nat {
    if e in pending then 1 else 0
  }

  lemma ManagersAfterAdding(surfaces: set<Surface>, s: Surface, e: Element)
    requires s !in surfaces
    ensures |Managers(surfaces + {s}, e)| == |Managers(surfaces, e)| + Listed(e, s.managed)
  {
    if e in s.managed {
      assert Managers(surfaces + {s}, e) == Managers(surfaces, e) + {s};
    } else {
      assert Managers(surfaces + {s}, e) == Managers(surfaces, e);
    }
  }

  /** The module's variables, the body's overflow, and ghost records of what there was before. */
  class ModalSurfaces {
    const body: Element
    var bodyOverflow: string
    var bodyLockCount: nat
    var bodyOverflowBeforeLock: string
    var inertReferenceCounts: map<Element, nat>
    ghost var open: set<Surface>
    ghost var elements: set<Element>
    ghost var originallyInert: set<Element>
    ghost var originalOverflow: string

    ghost function Count(e: Element): nat
      reads `inertReferenceCounts
    {
      if e in inertReferenceCounts then inertReferenceCounts[e] else 0
    }

    /** Counts and inertness for these surfaces and one half-installed or half-released list. */
    ghost predicate Counted(surfaces: set<Surface>, pending: seq<Element>)
      reads `inertReferenceCounts, `elements, `originallyInert, elements`inert
    {
      && originallyInert <= elements && inertReferenceCounts.Keys <= elements - originallyInert
      && (forall e | e in inertReferenceCounts :: inertReferenceCounts[e] > 0)
      && (forall e | e in elements :: Count(e) == |Managers(surfaces, e)| + Listed(e, pending))
      && (forall e | e in elements :: e.inert == (e in originallyInert || e in inertReferenceCounts))
    }

    ghost predicate Locked(count: nat)
      reads `bodyOverflow, `bodyLockCount, `bodyOverflowBeforeLock, `originalOverflow
    {
      && bodyLockCount == count
      && (count > 0 ==> bodyOverflow == "hidden" && bodyOverflowBeforeLock == originalOverflow)
      && (count == 0 ==> bodyOverflow == originalOverflow)
    }

    /** An open surface lists known elements, each once. */
    ghost predicate Tracked()
      reads `open, `elements
    {
      forall s | s in open :: Distinct(s.managed) && forall e | e in s.managed :: e in elements
    }

    ghost predicate Valid()
      reads this, elements
    {
      && body in elements
      && Tracked()
      && Counted(open, [])
      && Locked(|open|)
    }

    /** Whatever overflow the body has when the module is first used is the original one. */
    constructor (body: Element, overflow: string)
      ensures Valid() && open == {} && elements == {body} && this.body == body
      ensures bodyOverflow == originalOverflow == overflow
    {
      this.body := body;
      bodyOverflow, bodyOverflowBeforeLock, originalOverflow := overflow, "", overflow;
      bodyLockCount, inertReferenceCounts := 0, map[];
      open, elements, originallyInert := {}, {body}, if body.inert then {body} else {};
    }

    /** Page code added an element; whatever it is now is what it originally was. */
    ghost method Track(e: Element)
      requires Valid() && e !in elements
      modifies this
      ensures Valid() && elements == old(elements) + {e} && open == old(open)
      ensures originallyInert == old(originallyInert) + (if e.inert then {e} else {})
    {
      assert Managers(open, e) == {};
      elements := elements + {e};
      originallyInert := originallyInert + if e.inert then {e} else {};
    }

    // ---------- Locking the body ----------

    method LockBodyScroll()
      requires Locked(|open|)
      modifies `bodyOverflow, `bodyLockCount, `bodyOverflowBeforeLock
      ensures Locked(|open| + 1)
    {
      if bodyLockCount == 0 {
        bodyOverflowBeforeLock := bodyOverflow;
        bodyOverflow := "hidden";
      }
      bodyLockCount := bodyLockCount + 1;
    }

    method UnlockBodyScroll(ghost count: nat)
      requires Locked(count) && count > 0
      modifies `bodyOverflow, `bodyLockCount
      ensures Locked(count - 1)
    {
      bodyLockCount := Max(0, bodyLockCount - 1);
      if bodyLockCount == 0 {
        bodyOverflow := bodyOverflowBeforeLock;
      }
    }

    // ---------- One element ----------

    /** Takes a reference, unless the element is inert for reasons of its own. */
    method Retain(e: Element, managed: seq<Element>) returns (r: seq<Element>)
      requires Counted(open, managed) && e in elements && e !in managed
      modifies this`inertReferenceCounts, e`inert
      ensures Counted(open, r)
      ensures r == if old(e !in inertReferenceCounts && e.inert) then managed else managed + [e]
      ensures e in r ==> e.inert
      ensures e !in r ==> e.inert == old(e.inert) && (e in inertReferenceCounts <==> e in old(inertReferenceCounts))
      ensures forall x | x != e :: x in inertReferenceCounts <==> x in old(inertReferenceCounts)
    {
      if e !in inertReferenceCounts && e.inert {
        return managed;
      }
      if e !in inertReferenceCounts {
        e.inert := true;
      }
      var before := if e in inertReferenceCounts then inertReferenceCounts[e] else 0;
      inertReferenceCounts := inertReferenceCounts[e := before + 1];
      r := managed + [e];
      assert r[|managed|] == e;
    }

    /** Gives a reference back; the last one makes the element usable again. */
    method Drop(e: Element, ghost surfaces: set<Surface>, ghost pending: seq<Element>)
      requires pending != [] && pending[0] == e && e !in pending[1..] && e in elements
      requires Counted(surfaces, pending)
      modifies this`inertReferenceCounts, e`inert
      ensures Counted(surfaces, pending[1..])
    {
      ghost var counts := inertReferenceCounts;
      if e !in inertReferenceCounts || inertReferenceCounts[e] <= 1 {
        inertReferenceCounts := map x | x in inertReferenceCounts && x != e :: inertReferenceCounts[x];
        e.inert := false;
      } else {
        inertReferenceCounts := inertReferenceCounts[e := inertReferenceCounts[e] - 1];
      }
      assert pending == [e] + pending[1..];
      forall x | x in elements ensures Count(x) == |Managers(surfaces, x)| + Listed(x, pending[1..]) {
      }
    }

    // ---------- Whole surfaces ----------

    /** The elements a new surface takes over: outside it, and not inert for reasons of their own. */
    ghost predicate TakesOver(e: Element, path: seq<Element>, top: nat, excluded: set<string>)
      requires top < |path|
      reads `inertReferenceCounts, path`children, e`classes, e`inert
    {
      Outside(e, path, top, excluded) && (e in inertReferenceCounts || !e.inert)
    }

    ghost function TakenOver(path: seq<Element>, top: nat, excluded: set<string>): set<Element>
      requires top < |path|
      reads `inertReferenceCounts, `elements, path`children, elements`classes, elements`inert
    {
      set e | e in elements && TakesOver(e, path, top, excluded)
    }

    ghost function OutsideElements(path: seq<Element>, top: nat, excluded: set<string>): set<Element>
      requires top < |path|
      reads `elements, path`children, elements`classes
    {
      set e | e in elements && Outside(e, path, top, excluded)
    }

    /** Climbs from the container and retains the siblings met on the way. */
    method InertOutsideSurface(container: Element, excluded: set<string>, ghost path: seq<Element>, ghost top: nat)
      returns (managed: seq<Element>)
      requires Counted(open, []) && TreeAround(path, elements) && path[0] == container && ClimbsTo(path, body, top)
      modifies this`inertReferenceCounts, elements`inert
      ensures Counted(open, managed)
      ensures Distinct(managed)
      ensures forall e :: e in managed <==> e in old(TakenOver(path, top, excluded))
      ensures forall e | e in managed :: e in elements && e.inert
      ensures forall e | e in elements && e !in managed :: e.inert == old(e.inert)
    {
      hide Counted, Candidate;
      managed := [];
      var current := container;
      ghost var level := 0;
      while current.parent != null && current != body
        invariant level <= top && current == path[level]
        invariant level < |path| - 1 ==> current.parent == path[level + 1]
        invariant Counted(open, managed)
        invariant Distinct(managed)
        invariant forall e :: e in managed <==> e in elements && old(TakesOver(e, path, level, excluded))
        invariant forall e | e in managed :: e.inert
        invariant forall e | e in elements && e !in managed ::
            e.inert == old(e.inert) && (e in inertReferenceCounts <==> e in old(inertReferenceCounts))
        decreases top - level
      {
        var parent: Element := current.parent;
        forall e ensures Outside(e, path, level + 1, excluded)
          <==> Outside(e, path, level, excluded) || Candidate(e, path, level, excluded) {
          OutsideStep(e, path, level, excluded);
        }
        managed := RetainSiblings(current, parent, excluded, managed, path, level);
        current := parent;
        level := level + 1;
      }
    }

    lemma CountsAre(surfaces: set<Surface>, pending: seq<Element>)
      requires Counted(surfaces, pending)
      ensures forall e | e in elements :: Count(e) == |Managers(surfaces, e)| + Listed(e, pending)
    {
    }

    method RetainSiblings(current: Element, parent: Element, excluded: set<string>, before: seq<Element>,
                          ghost path: seq<Element>, ghost level: nat)
      returns (managed: seq<Element>)
      requires TreeAround(path, elements) && level + 1 < |path| && path[level] == current && path[level + 1] == parent
      requires Counted(open, before)
      requires Distinct(before)
      requires forall e | e in before :: e in elements && e.inert && Outside(e, path, level, excluded)
      modifies this`inertReferenceCounts, elements`inert
      ensures Counted(open, managed)
      ensures Distinct(managed)
      ensures forall e :: e in managed <==>
        (e in before || (Candidate(e, path, level, excluded) && (e in old(inertReferenceCounts) || !old(e.inert))))
      ensures forall e | e in managed :: e in elements && e.inert
      ensures forall e | e in elements && e !in managed ::
          e.inert == old(e.inert) && (e in inertReferenceCounts <==> e in old(inertReferenceCounts))
    {
      hide Counted;
      managed := before;
      for k := 0 to |parent.children|
        invariant Counted(open, managed)
        invariant Distinct(managed)
        invariant forall e :: e in managed <==>
          (e in before || (e in parent.children[..k] && Candidate(e, path, level, excluded)
                           && (e in old(inertReferenceCounts) || !old(e.inert))))
        invariant forall e | e in managed :: e in elements && e.inert
        invariant forall e | e in elements && e !in managed ::
            e.inert == old(e.inert) && (e in inertReferenceCounts <==> e in old(inertReferenceCounts))
      {
        var sibling := parent.children[k];
        assert parent in path && ChildrenLinked(parent);
        assert sibling in parent.children && sibling.parent == parent;
        assert parent.children[..k + 1] == parent.children[..k] + [sibling];
        assert sibling !in parent.children[..k];
        if sibling != current && sibling.isHtml && sibling.classes !! excluded {
          NotSeenBefore(sibling, path, level, excluded);
          managed := Retain(sibling, managed);
        }
      }
      assert parent.children[..|parent.children|] == parent.children;
    }

    /** Undoes a surface: drops each of its references, whichever surfaces came or went meanwhile. */
    method RestoreOutsideSurface(surface: Surface)
      requires Valid() && surface in open
      modifies this`inertReferenceCounts, elements`inert
      ensures Counted(open - {surface}, [])
    {
      ghost var others := open - {surface};
      forall e | e in elements
        ensures Count(e) == |Managers(others, e)| + Listed(e, surface.managed)
      {
        assert others + {surface} == open;
        ManagersAfterAdding(others, surface, e);
      }
      for k := 0 to |surface.managed|
        invariant Counted(others, surface.managed[k..])
      {
        ghost var pending := surface.managed[k..];
        assert pending[1..] == surface.managed[k + 1..];
        Drop(surface.managed[k], others, pending);
      }
      assert surface.managed[|surface.managed|..] == [];
    }

    /**
      * Installs a surface over any others. Its list is exactly what was outside it and not inert
      * for reasons of its own; nothing else changes.
      */
    method Install(container: Element, excluded: set<string>, ghost path: seq<Element>, ghost top: nat)
      returns (surface: Surface)
      requires Valid() && TreeAround(path, elements) && path[0] == container && ClimbsTo(path, body, top)
      modifies this, elements`inert
      ensures Valid() && fresh(surface) && open == old(open) + {surface}
      ensures elements == old(elements) && originallyInert == old(originallyInert)
      ensures originalOverflow == old(originalOverflow)
      ensures forall e :: e in surface.managed <==> e in old(TakenOver(path, top, excluded))
      ensures forall e | e in elements && e !in surface.managed :: e.inert == old(e.inert)
      ensures forall e | e in old(OutsideElements(path, top, excluded)) :: e.inert
      ensures forall e | e in path :: e.inert == old(e.inert)
      ensures path[top] == body ==>
        forall chain: seq<Element>, depth: nat | UnderBody(chain, depth, path, body) :: Shielded(chain, depth, excluded)
      ensures Covers(surface, old(OutsideElements(path, top, excluded)))
      // A sibling of the path below its top becomes inert, and is counted unless it was inert on its own account.
      ensures forall e | e in elements && old(IsSibling(e, path, top) && e.isHtml && e.classes !! excluded) ::
        e.inert && Count(e) == old(Count(e)) + (if old(Count(e) > 0 || !e.inert) then 1 else 0)
      // Any other element, and any that is excluded or is not HTML, is left alone.
      ensures forall e | e in elements && old(!IsSibling(e, path, top) || !e.isHtml || !(e.classes !! excluded)) ::
        e.inert == old(e.inert) && Count(e) == old(Count(e))
    {
      assert top < |path|;
      TakenOverAre(path, top, excluded);
      hide TreeAround, ClimbsTo, TakenOver, OutsideElements, UnderBody, Shielded, Counted, Locked, Tracked;
      hide IsSibling, Covers, Valid, Count;
      surface := InstallUnlocked(container, excluded, path, top);
    }

    /** The lock and the rest. */
    method InstallUnlocked(container: Element, excluded: set<string>, ghost path: seq<Element>, ghost top: nat)
      returns (surface: Surface)
      requires Valid() && TreeAround(path, elements) && path[0] == container && ClimbsTo(path, body, top)
      modifies this, elements`inert
      ensures Valid() && fresh(surface) && open == old(open) + {surface}
      ensures elements == old(elements) && originallyInert == old(originallyInert)
      ensures originalOverflow == old(originalOverflow)
      ensures forall e :: e in surface.managed <==> e in old(TakenOver(path, top, excluded))
      ensures forall e | e in elements && e !in surface.managed :: e.inert == old(e.inert)
      ensures forall e | e in elements :: Count(e) == old(Count(e)) + Listed(e, surface.managed)
      ensures forall e | e in old(OutsideElements(path, top, excluded)) :: e.inert
      ensures forall e | e in path :: e.inert == old(e.inert)
      ensures path[top] == body ==>
        forall chain: seq<Element>, depth: nat | UnderBody(chain, depth, path, body) :: Shielded(chain, depth, excluded)
      ensures Covers(surface, old(OutsideElements(path, top, excluded)))
    {
      hide TreeAround, ClimbsTo, TakenOver, OutsideElements, UnderBody, Shielded, Counted, Locked, Tracked;
      LockBodyScroll();
      surface := InstallLocked(container, excluded, path, top);
    }

    /** The elements taken over, by their own fields. */
    lemma TakenOverAre(path: seq<Element>, top: nat, excluded: set<string>)
      requires Counted(open, []) && TreeAround(path, elements) && top < |path|
      ensures forall e | e in elements && IsSibling(e, path, top) && e.isHtml && e.classes !! excluded ::
        e in TakenOver(path, top, excluded) <==> Count(e) > 0 || !e.inert
      ensures forall e | e in TakenOver(path, top, excluded) ::
        e.isHtml && e.classes !! excluded && IsSibling(e, path, top)
    {
      forall e | IsSibling(e, path, top) && e.isHtml && e.classes !! excluded ensures Outside(e, path, top, excluded) {
        var i :| 0 < i <= top && e in path[i].children && e != path[i - 1];
        assert Candidate(e, path, i - 1, excluded);
      }
      forall e | Outside(e, path, top, excluded)
        ensures e.isHtml && e.classes !! excluded && IsSibling(e, path, top)
      {
        var k :| 0 <= k < top && Candidate(e, path, k, excluded);
        assert e in path[k + 1].children;
      }
    }

    /** With everything outside inert, so is, or is below something that is, each element under the body. */
    lemma EverythingOutsideIsShielded(path: seq<Element>, top: nat, excluded: set<string>)
      requires TreeAround(path, elements) && ClimbsTo(path, body, top) && path[top] == body
      requires forall e | e in OutsideElements(path, top, excluded) :: e.inert
      ensures forall chain: seq<Element>, depth: nat | UnderBody(chain, depth, path, body) ::
        Shielded(chain, depth, excluded)
    {
      forall chain: seq<Element>, depth: nat | UnderBody(chain, depth, path, body)
        ensures Shielded(chain, depth, excluded)
      {
        forall e | Outside(e, path, top, excluded) ensures e.inert {
          OutsideIsKnown(e, path, elements, top, excluded);
        }
        var shield := OutsideIsShielded(path, top, body, excluded, chain, depth);
      }
    }

    /** The rest of an install, once the body is locked. */
    method InstallLocked(container: Element, excluded: set<string>, ghost path: seq<Element>, ghost top: nat)
      returns (surface: Surface)
      requires body in elements && Tracked() && Counted(open, []) && Locked(|open| + 1)
      requires TreeAround(path, elements) && path[0] == container && ClimbsTo(path, body, top)
      modifies `inertReferenceCounts, `open, elements`inert
      ensures Valid() && fresh(surface) && open == old(open) + {surface}
      ensures forall e :: e in surface.managed <==> e in old(TakenOver(path, top, excluded))
      ensures forall e | e in elements && e !in surface.managed :: e.inert == old(e.inert)
      ensures forall e | e in elements :: Count(e) == old(Count(e)) + Listed(e, surface.managed)
      ensures forall e | e in old(OutsideElements(path, top, excluded)) :: e.inert
      ensures forall e | e in path :: e.inert == old(e.inert)
      ensures path[top] == body ==>
        forall chain: seq<Element>, depth: nat | UnderBody(chain, depth, path, body) :: Shielded(chain, depth, excluded)
      ensures Covers(surface, old(OutsideElements(path, top, excluded)))
    {
      assert top < |path|;
      SparedOutsideIsInert(path, top, excluded);
      CountsAre(open, []);
      hide *;
      var managed := InertOutsideSurface(container, excluded, path, top);
      CountsAre(open, managed);
      surface := AddSurface(managed);
      if path[top] == body {
        EverythingOutsideIsShielded(path, top, excluded);
      }
    }

    /** What is outside and not taken over is inert for reasons of its own; no part of the path is taken over. */
    lemma SparedOutsideIsInert(path: seq<Element>, top: nat, excluded: set<string>)
      requires TreeAround(path, elements) && top < |path| && Counted(open, [])
      ensures OutsideElements(path, top, excluded) <= elements
      ensures forall e | e in OutsideElements(path, top, excluded) ::
        e in TakenOver(path, top, excluded) || (e.inert && e in originallyInert)
      ensures forall e | e in path :: e in elements && e !in TakenOver(path, top, excluded)
    {
      PathIsNotOutside(path, elements, top, excluded);
      hide Outside;
    }

    /** Every one of these elements is managed by the surface, or was inert before anything opened. */
    ghost predicate Covers(surface: Surface, outside: set<Element>)
      reads `elements, `originallyInert
    {
      outside <= elements && forall e | e in outside :: e in surface.managed || e in originallyInert
    }

    lemma CoveredIsInert(surface: Surface, outside: set<Element>)
      requires Valid() && surface in open && Covers(surface, outside)
      ensures forall e | e in outside :: e.inert
    {
      forall e | e in outside ensures e.inert {
        InertWhileManaged(e);
      }
    }

    /** The new surface joins the others; its references have been counted already. */
    method AddSurface(managed: seq<Element>) returns (surface: Surface)
      requires body in elements && Counted(open, managed) && Locked(|open| + 1)
      requires Tracked() && Distinct(managed)
      requires forall e | e in managed :: e in elements
      modifies `open
      ensures Valid() && fresh(surface) && surface.managed == managed && open == old(open) + {surface}
    {
      surface := new Surface(managed);
      forall e | e in elements
        ensures Count(e) == |Managers(open + {surface}, e)|
      {
        ManagersAfterAdding(open, surface, e);
      }
      open := open + {surface};
    }

    /** Releases a surface once, in any order. */
    method Release(surface: Surface)
      requires Valid() && surface in open
      modifies this, elements`inert
      ensures Valid() && open == old(open) - {surface}
      ensures elements == old(elements) && originallyInert == old(originallyInert)
      ensures originalOverflow == old(originalOverflow)
    {
      RestoreOutsideSurface(surface);
      UnlockBodyScroll(|open|);
      open := open - {surface};
    }

    /**
      * A history of installs and releases, of the surfaces in `known` and of those it opens itself. While a
      * surface stays open, everything it covers stays inert, whatever else opens and closes.
      */
    method Operate(known: seq<Surface>, operations: seq<Operation>, ghost surface: Surface, ghost outside: set<Element>)
      returns (all: seq<Surface>)
      requires Valid() && Distinct(known) && (forall s | s in known :: s in open)
      requires forall i | 0 <= i < |operations| :: Applicable(operations[i])
      requires surface in open && Covers(surface, outside)
      modifies this, elements`inert
      ensures Valid() && known <= all && elements == old(elements) && originallyInert == old(originallyInert)
      ensures Covers(surface, outside)
      ensures surface in open ==> forall e | e in outside :: e.inert
    {
      hide Valid, TreeAround, ClimbsTo;
      all := known;
      var isOpen := seq(|known|, i => true);
      for k := 0 to |operations|
        invariant Valid() && known <= all && elements == old(elements) && originallyInert == old(originallyInert)
        invariant Distinct(all) && |isOpen| == |all| && forall i | 0 <= i < |all| :: isOpen[i] <==> all[i] in open
        invariant forall i | 0 <= i < |operations| :: Applicable(operations[i])
        invariant forall s | s in open :: allocated(s)
      {
        match operations[k] {
          case Open(container, excluded, path, top) =>
            assert Applicable(operations[k]);
            var s := Install(container, excluded, path, top);
            all, isOpen := all + [s], isOpen + [true];
          case Close(index) =>
            if index < |all| && isOpen[index] {
              Release(all[index]);
              isOpen := isOpen[index := false];
            }
        }
      }
      if surface in open {
        CoveredIsInert(surface, outside);
      }
    }

    /** The path of an install is the chain of parents of its container. */
    ghost predicate Applicable(operation: Operation)
      reads this`elements, PathOf(operation)`parent, PathOf(operation)`children, elements`parent
    {
      operation.Open? ==>
        && TreeAround(operation.path, elements) && operation.path[0] == operation.container
        && ClimbsTo(operation.path, body, operation.top)
    }

    /** With every surface released, each element and the body are as they originally were. */
    lemma AllReleased()
      requires Valid() && open == {}
      ensures forall e | e in elements :: e.inert == (e in originallyInert)
      ensures bodyOverflow == originalOverflow && bodyLockCount == 0
      ensures inertReferenceCounts == map[]
    {
    }

    /** Meanwhile an element is inert exactly when it was originally, or some open surface manages it. */
    lemma InertWhileManaged(e: Element)
      requires Valid() && e in elements
      ensures Count(e) == |Managers(open, e)|
      ensures e.inert <==> e in originallyInert || exists s :: s in open && e in s.managed
      ensures bodyOverflow == if open == {} then originalOverflow else "hidden"
    {
      if e in inertReferenceCounts {
        var s :| s in Managers(open, e);
      } else {
        assert Managers(open, e) == {};
        assert forall s | s in open && e in s.managed :: s in Managers(open, e);
      }
    }
  }

  // ---------- Facts about the tree ----------

  lemma OutsideStep(e: Element, path: seq<Element>, level: nat, excluded: set<string>)
    requires level + 1 < |path|
    ensures Outside(e, path, level + 1, excluded)
       <==> Outside(e, path, level, excluded) || Candidate(e, path, level, excluded)
  {
  }

  /** An element has one parent, so its siblings were not met at a lower level. */
  lemma NotSeenBefore(e: Element, path: seq<Element>, level: nat, excluded: set<string>)
    requires ParentChain(path) && level + 1 < |path| && e.parent == path[level + 1]
    requires forall p | p in path :: ChildrenLinked(p)
    ensures !Outside(e, path, level, excluded)
  {
    forall i | 0 <= i < level ensures !Candidate(e, path, i, excluded) {
      assert path[i + 1] in path;
    }
  }

  /** The container and its ancestors are never taken over. */
  lemma AncestorsAreNotOutside(e: Element, path: seq<Element>, top: nat, excluded: set<string>)
    requires ParentChain(path) && e in path && top < |path|
    requires forall p | p in path :: ChildrenLinked(p)
    ensures !Outside(e, path, top, excluded)
  {
    var j :| 0 <= j < |path| && path[j] == e;
    forall i | 0 <= i < top ensures !Candidate(e, path, i, excluded) {
      assert path[i + 1] in path;
      if e in path[i + 1].children {
        assert e.parent == path[i + 1];
        assert j + 1 < |path| ==> path[j + 1] == path[i + 1];
      }
    }
  }

  lemma PathIsNotOutside(path: seq<Element>, elements: set<Element>, top: nat, excluded: set<string>)
    requires TreeAround(path, elements) && top < |path|
    ensures forall e | e in path :: e in elements && !Outside(e, path, top, excluded)
  {
    forall e | e in path ensures !Outside(e, path, top, excluded) {
      AncestorsAreNotOutside(e, path, top, excluded);
    }
  }

  /** An element that hides everything below it from the page. */
  ghost predicate Shields(e: Element, excluded: set<string>)
    reads e
  {
    e.inert || !e.isHtml || !(e.classes !! excluded)
  }

  /** `chain` climbs to the body from an element that is neither inside the container nor above it. */
  ghost predicate UnderBody(chain: seq<Element>, depth: nat, path: seq<Element>, body: Element)
    requires path != []
    reads chain`parent, set e | e in chain && e.parent != null :: e.parent`children
  {
    && ParentChain(chain) && depth < |chain| && chain[depth] == body
    && path[0] !in chain && chain[0] !in path
    && forall e | e in chain[..depth] :: e.parent != null && e in e.parent.children
  }

  ghost predicate Shielded(chain: seq<Element>, depth: nat, excluded: set<string>)
    reads chain
  {
    exists e | e in chain :: depth < |chain| && e in chain[..depth] && Shields(e, excluded)
  }

  /** Candidates are children of the path, so they are known elements. */
  lemma OutsideIsKnown(e: Element, path: seq<Element>, elements: set<Element>, top: nat, excluded: set<string>)
    requires TreeAround(path, elements) && top < |path| && Outside(e, path, top, excluded)
    ensures e in elements
  {
  }

  /**
    * Every element of the body that is neither inside the container nor above it has an ancestor,
    * or is one itself, that is inert or was excluded or is not HTML, once everything outside is inert.
    */
  lemma {:induction false} OutsideIsShielded(path: seq<Element>, top: nat, body: Element, excluded: set<string>,
                                             chain: seq<Element>, depth: nat) returns (shield: Element)
    requires ParentChain(path) && top < |path| && path[top] == body && ClimbsTo(path, body, top)
    requires UnderBody(chain, depth, path, body)
    requires forall e | e in chain && Outside(e, path, top, excluded) :: e.inert
    ensures shield in chain[..depth] && Shields(shield, excluded)
  {
    var j, m := FirstCommon(path, top, body, chain, depth);
    shield := chain[j - 1];
    assert shield in chain[..depth];
    assert shield.parent == path[m];
    if shield.isHtml && shield.classes !! excluded {
      assert shield != path[m - 1] by {
        assert shield !in path;
      }
      assert Candidate(shield, path, m - 1, excluded);
      assert Outside(shield, path, top, excluded);
    }
  }

  /** The lowest element of `chain` that is also on `path`, and where it is on `path`. */
  lemma FirstCommon(path: seq<Element>, top: nat, body: Element, chain: seq<Element>, depth: nat)
    returns (j: nat, m: nat)
    requires ParentChain(path) && ParentChain(chain)
    requires top < |path| && path[top] == body && ClimbsTo(path, body, top)
    requires depth < |chain| && chain[depth] == body
    requires path[0] !in chain && chain[0] !in path
    ensures 0 < j <= depth && 0 < m <= top
    ensures chain[j] == path[m] && chain[j - 1] !in path
  {
    j := depth;
    m := top;
    while chain[j - 1] in path
      invariant 0 < j <= depth && 0 < m <= top && chain[j] == path[m]
      decreases j
    {
      var i :| 0 <= i < |path| && path[i] == chain[j - 1];
      assert chain[j - 1].parent == chain[j];
      assert path[i].parent == path[m];
      assert i + 1 < |path|;
      assert path[i + 1] == path[m];
      j := j - 1;
      m := i;
    }
  }
}
