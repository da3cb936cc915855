/**
 Ownership of foreign resources by `GribHandle`: a decoder handle and the cached grid search made from
 it. First the effect of each member function on values, then the class, then all runs over any number
 of wrappers.
 */
module Ownership {
  import opened Basics

  /**
   The decoder library: every resource ever made has an identifier below `next`. `madeFrom` remembers
   the handle of each search, and `deleted` lists the deletions in order.
   */
  datatype Foreign = Foreign(
    next: nat, handles: set<nat>, searches: set<nat>, madeFrom: map<nat, nat>, deleted: seq<nat>)

  /** The two pointers of a wrapper. */
  datatype Wrapper = Wrapper(h: Option<nat>, nearest: Option<nat>)

  const EMPTY: Wrapper := Wrapper(None, None)

  /** What `codes_grib_nearest_new` answers: nothing, a search with an error code, or a good search. */
  datatype SearchReply = Nothing | Faulty | Good

  function NewHandle(f: Foreign): Foreign {
    f.(next := f.next + 1, handles := f.handles + {f.next})
  }

  function NewSearch(f: Foreign, h: nat): Foreign {
    f.(next := f.next + 1, searches := f.searches + {f.next}, madeFrom := f.madeFrom[f.next := h])
  }

  function Delete(f: Foreign, id: nat): Foreign {
    f.(handles := f.handles - {id}, searches := f.searches - {id}, deleted := f.deleted + [id])
  }

  function DeleteIf(f: Foreign, id: Option<nat>): Foreign {
    match id
    case Some(i) => Delete(f, i)
    case None => f
  }

  /** The destructor: the search goes before the handle it was made from. */
  function Released(f: Foreign, w: Wrapper): Foreign {
    DeleteIf(DeleteIf(f, w.nearest), w.h)
  }

  /** The first `nearest` call on a handle makes and caches a search; later calls reuse it. */
  function AfterNearest(f: Foreign, w: Wrapper, reply: SearchReply): (Foreign, Wrapper) {
    if w.h.None? || w.nearest.Some? then (f, w)
    else
      match reply
      case Nothing => (f, w)
      case Faulty => (Delete(NewSearch(f, w.h.value), f.next), w)
      case Good => (NewSearch(f, w.h.value), w.(nearest := Some(f.next)))
  }

  // ----- The class

  class EcCodes {
    var state: Foreign

    constructor ()
      ensures state == Foreign(0, {}, {}, map[], [])
    {
      state := Foreign(0, {}, {}, map[], []);
    }

    method DeleteOne(id: nat)
      modifies this
      ensures state == Delete(old(state), id)
    {
      state := Delete(state, id);
    }
  }

  class GribHandle {
    var h: Option<nat>
    var nearest: Option<nat>

    function Pointers(): Wrapper
      reads this
    {
      Wrapper(h, nearest)
    }

    constructor (h: Option<nat>)
      ensures Pointers() == Wrapper(h, None)
    {
      this.h := h;
      nearest := None;
    }

    constructor Move(o: GribHandle)
      modifies o
      ensures Pointers() == old(o.Pointers()) && o.Pointers() == EMPTY
    {
      h := o.h;
      nearest := o.nearest;
      new;
      o.h := None;
      o.nearest := None;
    }

    method Release(ec: EcCodes)
      modifies ec
      ensures ec.state == Released(old(ec.state), Pointers())
    {
      if nearest.Some? {
        ec.DeleteOne(nearest.value);
      }
      if h.Some? {
        ec.DeleteOne(h.value);
      }
    }

    method Assign(o: GribHandle, ec: EcCodes)
      modifies this, o, ec
      ensures this == o ==> Pointers() == old(Pointers()) && ec.state == old(ec.state)
      ensures this != o ==> Pointers() == old(o.Pointers()) && o.Pointers() == EMPTY
      ensures this != o ==> ec.state == Released(old(ec.state), old(Pointers()))
    {
      if this != o {
        if nearest.Some? {
          ec.DeleteOne(nearest.value);
        }
        if h.Some? {
          ec.DeleteOne(h.value);
        }
        h := o.h;
        o.h := None;
        nearest := o.nearest;
        o.nearest := None;
      }
    }

    /** The ownership part of `nearest`; true when a search is available afterwards. */
    method Nearest(ec: EcCodes, reply: SearchReply) returns (available: bool)
      modifies this`nearest, ec
      ensures (ec.state, Pointers()) == AfterNearest(old(ec.state), old(Pointers()), reply)
      ensures available <==> h.Some? && nearest.Some?
      ensures h.Some? && old(nearest).Some? ==> available && nearest == old(nearest) && ec.state == old(ec.state)
      ensures h.None? || (old(nearest).None? && reply.Nothing?) ==>
                !available && nearest == old(nearest) && ec.state == old(ec.state)
      ensures h.Some? && old(nearest).None? && reply.Faulty? ==>
                && !available && nearest == None
                && ec.state.deleted == old(ec.state.deleted) + [old(ec.state.next)]
                && ec.state.searches == old(ec.state.searches) - {old(ec.state.next)}
      ensures h.Some? && old(nearest).None? && reply.Good? ==>
                var made := old(ec.state.next);
                && available && nearest == Some(made)
                && ec.state.searches == old(ec.state.searches) + {made}
                && ec.state.madeFrom == old(ec.state.madeFrom)[made := h.value]
                && ec.state.deleted == old(ec.state.deleted) && ec.state.handles == old(ec.state.handles)
    {
      if h.None? {
        return false;
      }
      if nearest.None? {
        if reply.Nothing? {
          return false;
        }
        var created := ec.state.next;
        ec.state := NewSearch(ec.state, h.value);
        if reply.Faulty? {
          ec.DeleteOne(created);
          return false;
        }
        nearest := Some(created);
      }
      return true;
    }
  }

  // ----- All runs

  datatype World = World(foreign: Foreign, wrappers: map<nat, Wrapper>)

  datatype Move =
    | Create(w: nat, ok: bool)
    | MoveConstruct(w: nat, from: nat)
    | MoveAssign(w: nat, from: nat)
    | Nearest(w: nat, reply: SearchReply)
    | Destroy(w: nat)

  predicate Enabled(s: World, m: Move) {
    match m
    case Create(w, _) => w !in s.wrappers
    case MoveConstruct(w, from) => w !in s.wrappers && from in s.wrappers
    case MoveAssign(w, from) => w in s.wrappers && from in s.wrappers
    case Nearest(w, _) => w in s.wrappers
    case Destroy(w) => w in s.wrappers
  }

  /** One member function call; a creation that fails makes no wrapper. */
  function Next(s: World, m: Move): World
    requires Enabled(s, m)
  {
    match m
    case Create(w, ok) =>
      if ok then World(NewHandle(s.foreign), s.wrappers[w := Wrapper(Some(s.foreign.next), None)]) else s
    case MoveConstruct(w, from) => s.(wrappers := s.wrappers[w := s.wrappers[from]][from := EMPTY])
    case MoveAssign(w, from) =>
      if w == from then s
      else World(Released(s.foreign, s.wrappers[w]), s.wrappers[w := s.wrappers[from]][from := EMPTY])
    case Nearest(w, reply) =>
      var (foreign, after) := AfterNearest(s.foreign, s.wrappers[w], reply);
      World(foreign, s.wrappers[w := after])
    case Destroy(w) => World(Released(s.foreign, s.wrappers[w]), s.wrappers - {w})
  }

  const START: World := World(Foreign(0, {}, {}, map[], []), map[])

  ghost predicate Leads(s: World, moves: seq<Move>, s': World)
    decreases |moves|
  {
    if moves == [] then s == s' else Enabled(s, moves[0]) && Leads(Next(s, moves[0]), moves[1..], s')
  }

  predicate Owns(w: Wrapper, id: nat) {
    w.h == Some(id) || w.nearest == Some(id)
  }

  predicate Live(f: Foreign, id: nat) {
    id in f.handles || id in f.searches
  }

  /** The books of the library: whatever was made is either live or deleted, never both, never twice. */
  ghost predicate Accounted(f: Foreign) {
    && (forall id: nat :: id < f.next ==> (Live(f, id) <==> id !in f.deleted))
    && (forall id: nat :: Live(f, id) ==> id < f.next)
    && (forall id :: id in f.deleted ==> id < f.next)
    && (forall i, j :: 0 <= i < j < |f.deleted| ==> f.deleted[i] != f.deleted[j])
  }

  /** Handles and searches are told apart for ever, and a search's handle was there before it. */
  ghost predicate Kinds(f: Foreign) {
    && (forall s :: s in f.madeFrom ==> s < f.next && f.madeFrom[s] < f.next && s !in f.handles)
    && (forall s :: s in f.searches ==> s in f.madeFrom)
    && (forall s :: s in f.madeFrom ==> f.madeFrom[s] !in f.madeFrom)
  }

  /** A handle is deleted only after every search made from it. */
  ghost predicate SearchesFirst(f: Foreign) {
    forall i, s :: 0 <= i < |f.deleted| && s in f.madeFrom && f.madeFrom[s] == f.deleted[i] ==> s in f.deleted[..i]
  }

  ghost predicate Books(f: Foreign) {
    Accounted(f) && Kinds(f) && SearchesFirst(f)
  }

  /** A wrapper's pointers are live; its search was made from its own handle. */
  ghost predicate WrapperOk(f: Foreign, w: Wrapper) {
    && (w.h.Some? ==> w.h.value in f.handles)
    && (w.nearest.Some? ==>
          w.nearest.value in f.searches && w.nearest.value in f.madeFrom
          && w.h == Some(f.madeFrom[w.nearest.value]))
  }

  ghost predicate OwnedBy(s: World, w: nat, id: nat) {
    w in s.wrappers && Owns(s.wrappers[w], id)
  }

  ghost predicate Inv(s: World) {
    && Books(s.foreign)
    && (forall w :: w in s.wrappers ==> WrapperOk(s.foreign, s.wrappers[w]))
    && (forall w, v, id :: OwnedBy(s, w, id) && OwnedBy(s, v, id) ==> w == v)
    && (forall id: nat :: Live(s.foreign, id) ==> exists w :: OwnedBy(s, w, id))
  }

  // ----- The elementary changes

  lemma DeleteKeepsBooks(f: Foreign, id: nat)
    requires Books(f) && Live(f, id)
    requires forall s :: s in f.madeFrom && f.madeFrom[s] == id ==> s !in f.searches
    ensures Books(Delete(f, id))
  {
    var g := Delete(f, id);
    forall x: nat
      ensures x < g.next ==> (Live(g, x) <==> x !in g.deleted)
      ensures Live(g, x) ==> x < g.next
    {
      assert Live(g, x) <==> Live(f, x) && x != id;
      assert x in g.deleted <==> x in f.deleted || x == id;
    }
    forall i, s | 0 <= i < |g.deleted| && s in g.madeFrom && g.madeFrom[s] == g.deleted[i]
      ensures s in g.deleted[..i]
    {
      if i < |f.deleted| {
        assert g.deleted[..i] == f.deleted[..i];
      } else {
        assert g.deleted[..i] == f.deleted;
        assert s !in f.handles && s < f.next;
        assert !Live(f, s);
      }
    }
  }

  lemma NewKeepsBooks(f: Foreign, h: nat)
    requires Books(f)
    ensures Books(NewHandle(f))
    ensures h in f.handles ==> Books(NewSearch(f, h))
  {
    assert !Live(f, f.next) && f.next !in f.deleted;
    forall x: nat
      ensures Live(NewHandle(f), x) <==> Live(f, x) || x == f.next
      ensures Live(NewSearch(f, h), x) <==> Live(f, x) || x == f.next
    {
    }
    assert Accounted(NewHandle(f));
    assert Accounted(NewSearch(f, h));
    if h in f.handles {
      assert Live(f, h) && h !in f.deleted;
      var g := NewSearch(f, h);
      forall i, s | 0 <= i < |g.deleted| && s in g.madeFrom && g.madeFrom[s] == g.deleted[i]
        ensures s in g.deleted[..i]
      {
        assert s != f.next;
      }
    }
  }

  /** Ownership after one wrapper's pointers changed, given who owns what is left. */
  lemma Reowned(s: World, s': World, w: nat)
    requires Inv(s) && Books(s'.foreign)
    requires forall v :: v != w ==> (v in s.wrappers <==> v in s'.wrappers)
    requires forall v :: v != w && v in s.wrappers ==>
               s'.wrappers[v] == s.wrappers[v] && WrapperOk(s'.foreign, s.wrappers[v])
    requires w in s'.wrappers ==> WrapperOk(s'.foreign, s'.wrappers[w])
    requires forall id, v :: OwnedBy(s', w, id) && v != w ==> !OwnedBy(s, v, id)
    requires forall id: nat :: Live(s'.foreign, id) ==>
               OwnedBy(s', w, id) || (Live(s.foreign, id) && !OwnedBy(s, w, id))
    ensures Inv(s')
  {
    forall x, y, id | OwnedBy(s', x, id) && OwnedBy(s', y, id) ensures x == y {
      if x != w && y != w {
        assert OwnedBy(s, x, id) && OwnedBy(s, y, id);
      } else if x != w {
        assert OwnedBy(s, x, id);
      } else if y != w {
        assert OwnedBy(s, y, id);
      }
    }
    forall id: nat | Live(s'.foreign, id) ensures exists v :: OwnedBy(s', v, id) {
      if !OwnedBy(s', w, id) {
        var v :| OwnedBy(s, v, id);
        assert OwnedBy(s', v, id);
      }
    }
  }

  function With(s: World, foreign: Foreign, w: nat, pointers: Wrapper): World {
    World(foreign, s.wrappers[w := pointers])
  }

  lemma OthersKeepTheirs(s: World, w: nat, id: nat)
    requires Inv(s) && OwnedBy(s, w, id)
    ensures forall v :: v != w && v in s.wrappers ==> !Owns(s.wrappers[v], id)
  {
    forall v | v != w && v in s.wrappers ensures !Owns(s.wrappers[v], id) {
      assert OwnedBy(s, v, id) ==> v == w;
    }
  }

  lemma DropSearch(s: World, w: nat)
    requires Inv(s) && w in s.wrappers && s.wrappers[w].nearest.Some?
    ensures Inv(With(s, Delete(s.foreign, s.wrappers[w].nearest.value), w, s.wrappers[w].(nearest := None)))
  {
    var id := s.wrappers[w].nearest.value;
    assert OwnedBy(s, w, id);
    OthersKeepTheirs(s, w, id);
    DeleteKeepsBooks(s.foreign, id);
    var s' := With(s, Delete(s.foreign, id), w, s.wrappers[w].(nearest := None));
    forall x, v | OwnedBy(s', w, x) && v != w ensures !OwnedBy(s, v, x) {
      assert OwnedBy(s, w, x);
    }
    Reowned(s, s', w);
  }

  /** A live search made from a wrapper's handle is the one the wrapper caches. */
  lemma SearchIsCached(s: World, w: nat, x: nat)
    requires Inv(s) && w in s.wrappers && x in s.foreign.madeFrom
    requires s.wrappers[w].h == Some(s.foreign.madeFrom[x])
    ensures x in s.foreign.searches ==> s.wrappers[w].nearest == Some(x)
  {
    if x in s.foreign.searches {
      assert Live(s.foreign, x);
      var v :| OwnedBy(s, v, x);
      assert WrapperOk(s.foreign, s.wrappers[v]);
      assert OwnedBy(s, v, s.foreign.madeFrom[x]) && OwnedBy(s, w, s.foreign.madeFrom[x]);
    }
  }

  lemma DropHandle(s: World, w: nat)
    requires Inv(s) && w in s.wrappers && s.wrappers[w].h.Some? && s.wrappers[w].nearest.None?
    ensures Inv(With(s, Delete(s.foreign, s.wrappers[w].h.value), w, EMPTY))
  {
    var id := s.wrappers[w].h.value;
    assert OwnedBy(s, w, id);
    OthersKeepTheirs(s, w, id);
    forall x | x in s.foreign.madeFrom && s.foreign.madeFrom[x] == id ensures x !in s.foreign.searches {
      SearchIsCached(s, w, x);
    }
    DeleteKeepsBooks(s.foreign, id);
    Reowned(s, With(s, Delete(s.foreign, id), w, EMPTY), w);
  }

  lemma Forget(s: World, w: nat)
    requires Inv(s) && w in s.wrappers && s.wrappers[w] == EMPTY
    ensures Inv(s.(wrappers := s.wrappers - {w}))
  {
    Reowned(s, s.(wrappers := s.wrappers - {w}), w);
  }

  lemma NextIsUnowned(s: World)
    requires Inv(s)
    ensures forall v :: !OwnedBy(s, v, s.foreign.next)
  {
    forall v ensures !OwnedBy(s, v, s.foreign.next) {
      if v in s.wrappers {
        assert WrapperOk(s.foreign, s.wrappers[v]);
        assert Live(s.foreign, s.foreign.next) ==> s.foreign.next < s.foreign.next;
      }
    }
  }

  lemma AddHandle(s: World, w: nat)
    requires Inv(s) && w !in s.wrappers
    ensures Inv(With(s, NewHandle(s.foreign), w, Wrapper(Some(s.foreign.next), None)))
  {
    NewKeepsBooks(s.foreign, 0);
    NextIsUnowned(s);
    Reowned(s, With(s, NewHandle(s.foreign), w, Wrapper(Some(s.foreign.next), None)), w);
  }

  lemma AddSearch(s: World, w: nat)
    requires Inv(s) && w in s.wrappers && s.wrappers[w].h.Some? && s.wrappers[w].nearest.None?
    ensures Inv(With(s, NewSearch(s.foreign, s.wrappers[w].h.value), w,
                     s.wrappers[w].(nearest := Some(s.foreign.next))))
  {
    var h := s.wrappers[w].h.value;
    assert OwnedBy(s, w, h);
    OthersKeepTheirs(s, w, h);
    NewKeepsBooks(s.foreign, h);
    NextIsUnowned(s);
    Reowned(s, With(s, NewSearch(s.foreign, h), w, s.wrappers[w].(nearest := Some(s.foreign.next))), w);
  }

  lemma MoveOver(s: World, w: nat, from: nat)
    requires Inv(s) && w !in s.wrappers && from in s.wrappers
    ensures Inv(s.(wrappers := s.wrappers[w := s.wrappers[from]][from := EMPTY]))
  {
    var s' := s.(wrappers := s.wrappers[w := s.wrappers[from]][from := EMPTY]);
    forall x, y, id | OwnedBy(s', x, id) && OwnedBy(s', y, id) ensures x == y {
      assert OwnedBy(s, if x == w then from else x, id);
      assert OwnedBy(s, if y == w then from else y, id);
    }
    forall id: nat | Live(s'.foreign, id) ensures exists v :: OwnedBy(s', v, id) {
      var v :| OwnedBy(s, v, id);
      assert OwnedBy(s', if v == from then w else v, id);
    }
  }

  // ----- Every member function

  lemma DestroyKeepsInv(s: World, w: nat)
    requires Inv(s) && w in s.wrappers
    ensures Inv(Next(s, Destroy(w)))
  {
    var p := s.wrappers[w];
    var s1 := With(s, DeleteIf(s.foreign, p.nearest), w, p.(nearest := None));
    if p.nearest.Some? {
      DropSearch(s, w);
    } else {
      assert s1 == s;
    }
    var s2 := With(s1, DeleteIf(s1.foreign, p.h), w, EMPTY);
    if p.h.Some? {
      DropHandle(s1, w);
    } else {
      assert s2 == s1;
    }
    Forget(s2, w);
    assert s2.wrappers - {w} == s.wrappers - {w};
  }

  lemma NearestKeepsInv(s: World, w: nat, reply: SearchReply)
    requires Inv(s) && w in s.wrappers
    ensures Inv(Next(s, Nearest(w, reply)))
  {
    var p := s.wrappers[w];
    assert s.wrappers[w := p] == s.wrappers;
    if p.h.Some? && p.nearest.None? && !reply.Nothing? {
      AddSearch(s, w);
      if reply.Faulty? {
        var s1 := With(s, NewSearch(s.foreign, p.h.value), w, p.(nearest := Some(s.foreign.next)));
        DropSearch(s1, w);
        assert s1.wrappers[w := p] == s.wrappers;
      }
    }
  }

  lemma NextKeepsInv(s: World, m: Move)
    requires Inv(s) && Enabled(s, m)
    ensures Inv(Next(s, m))
  {
    match m
    case Create(w, ok) =>
      if ok {
        AddHandle(s, w);
      }
    case MoveConstruct(w, from) => MoveOver(s, w, from);
    case MoveAssign(w, from) =>
      if w != from {
        DestroyKeepsInv(s, w);
        var s1 := Next(s, Destroy(w));
        MoveOver(s1, w, from);
        assert s1.wrappers[w := s.wrappers[from]][from := EMPTY] == s.wrappers[w := s.wrappers[from]][from := EMPTY];
      }
    case Nearest(w, reply) => NearestKeepsInv(s, w, reply);
    case Destroy(w) => DestroyKeepsInv(s, w);
  }

  lemma {:induction false} RunKeepsInv(s: World, moves: seq<Move>, s': World)
    requires Inv(s) && Leads(s, moves, s')
    ensures Inv(s')
    decreases |moves|
  {
    if moves == [] {
    } else {
      NextKeepsInv(s, moves[0]);
      RunKeepsInv(Next(s, moves[0]), moves[1..], s');
    }
  }

  // ----- What every run guarantees

  /** Every live handle and search has exactly one owner, and a search lives with the handle it was made from. */
  lemma ExactlyOneOwner(moves: seq<Move>, s: World, id: nat)
    requires Leads(START, moves, s) && Live(s.foreign, id)
    ensures exists w :: OwnedBy(s, w, id) && forall v :: OwnedBy(s, v, id) ==> v == w
    ensures id in s.foreign.searches ==>
              id in s.foreign.madeFrom && exists w :: OwnedBy(s, w, id) && OwnedBy(s, w, s.foreign.madeFrom[id])
  {
    RunKeepsInv(START, moves, s);
    var w :| OwnedBy(s, w, id);
    if id in s.foreign.searches {
      assert WrapperOk(s.foreign, s.wrappers[w]);
      assert OwnedBy(s, w, s.foreign.madeFrom[id]);
    }
  }

  /** What a wrapper points to is live: no member function ever touches a deleted resource. */
  lemma NothingDangles(moves: seq<Move>, s: World, w: nat, id: nat)
    requires Leads(START, moves, s) && OwnedBy(s, w, id)
    ensures Live(s.foreign, id) && id !in s.foreign.deleted
  {
    RunKeepsInv(START, moves, s);
    assert WrapperOk(s.foreign, s.wrappers[w]);
  }

  lemma ReleaseDeletes(f: Foreign, w: Wrapper)
    ensures f.deleted <= Released(f, w).deleted
    ensures forall id :: id in Released(f, w).deleted[|f.deleted|..] <==> Owns(w, id)
  {
    var mid := DeleteIf(f, w.nearest);
    assert mid.deleted == f.deleted + if w.nearest.Some? then [w.nearest.value] else [];
    assert Released(f, w).deleted
           == f.deleted + ((if w.nearest.Some? then [w.nearest.value] else []) + if w.h.Some? then [w.h.value] else []);
  }

  /**
   What each member function does to the pointers. A creation that succeeds makes a handle without a search; a
   move hands both pointers over and leaves none behind; assignment to itself changes nothing, and to another
   wrapper first deletes what that one had.
   */
  lemma TransfersPointers(moves: seq<Move>, s: World, m: Move)
    requires Leads(START, moves, s) && Enabled(s, m)
    ensures var s', f := Next(s, m), s.foreign;
            match m
            case Create(w, ok) =>
              if ok then
                && w in s'.wrappers && s'.wrappers[w].h == Some(f.next) && s'.wrappers[w].nearest == None
                && f.next in s'.foreign.handles && s'.foreign.deleted == f.deleted
              else s' == s
            case MoveConstruct(w, from) =>
              && w in s'.wrappers && s'.wrappers[w] == s.wrappers[from]
              && s'.wrappers[from].h == s'.wrappers[from].nearest == None && s'.foreign == f
            case MoveAssign(w, from) =>
              if w == from then s' == s
              else
                && s'.wrappers[w] == s.wrappers[from] && s'.wrappers[from].h == s'.wrappers[from].nearest == None
                && f.deleted <= s'.foreign.deleted
                && (forall id :: id in s'.foreign.deleted[|f.deleted|..] <==> Owns(s.wrappers[w], id))
            case Destroy(w) =>
              && w !in s'.wrappers && f.deleted <= s'.foreign.deleted
              && (forall id :: id in s'.foreign.deleted[|f.deleted|..] <==> Owns(s.wrappers[w], id))
            case Nearest(w, _) => w in s'.wrappers && s'.wrappers[w].h == s.wrappers[w].h
  {
    if m.Destroy? || (m.MoveAssign? && m.w != m.from) {
      ReleaseDeletes(s.foreign, s.wrappers[m.w]);
    }
  }

  ghost predicate MadeFrom(f: Foreign, search: nat, h: nat) {
    search in f.madeFrom && f.madeFrom[search] == h
  }

  /** Handle `h` is live and has this live search. */
  ghost predicate HasSearch(f: Foreign, h: nat, search: nat) {
    h in f.handles && search in f.searches && MadeFrom(f, search, h)
  }

  lemma SearchStays(s: World, m: Move, h: nat, search: nat)
    requires Inv(s) && Enabled(s, m) && HasSearch(s.foreign, h, search)
    ensures var f := Next(s, m).foreign;
            && (h in f.handles ==> HasSearch(f, h, search))
            && (forall x :: MadeFrom(f, x, h) ==> MadeFrom(s.foreign, x, h))
  {
    assert Live(s.foreign, search);
    var v :| OwnedBy(s, v, search);
    assert WrapperOk(s.foreign, s.wrappers[v]) && OwnedBy(s, v, h);
    if m.Nearest? && m.w != v && s.wrappers[m.w].h == Some(h) {
      assert OwnedBy(s, m.w, h);
    }
    if (m.Destroy? || m.MoveAssign?) && m.w != v {
      OthersKeepTheirs(s, v, h);
      OthersKeepTheirs(s, v, search);
    }
  }

  lemma DeadHandleStaysDead(s: World, m: Move, h: nat)
    requires Inv(s) && Enabled(s, m) && h < s.foreign.next && h !in s.foreign.handles
    ensures h < Next(s, m).foreign.next && h !in Next(s, m).foreign.handles
  {
  }

  lemma {:induction false} DeadHandleNeverReturns(s: World, moves: seq<Move>, s': World, h: nat)
    requires Inv(s) && Leads(s, moves, s') && h < s.foreign.next && h !in s.foreign.handles
    ensures h !in s'.foreign.handles
    decreases |moves|
  {
    if moves == [] {
    } else {
      NextKeepsInv(s, moves[0]);
      DeadHandleStaysDead(s, moves[0], h);
      DeadHandleNeverReturns(Next(s, moves[0]), moves[1..], s', h);
    }
  }

  lemma NextGrows(s: World, m: Move)
    requires Enabled(s, m)
    ensures s.foreign.next <= Next(s, m).foreign.next
  {
  }

  lemma {:induction false} SearchIsKept(s: World, moves: seq<Move>, s': World, h: nat, search: nat)
    requires Inv(s) && Leads(s, moves, s') && HasSearch(s.foreign, h, search) && h in s'.foreign.handles
    ensures HasSearch(s'.foreign, h, search)
    ensures forall x :: MadeFrom(s'.foreign, x, h) ==> MadeFrom(s.foreign, x, h)
    decreases |moves|
  {
    if moves == [] {
    } else {
      var next := Next(s, moves[0]);
      NextKeepsInv(s, moves[0]);
      SearchStays(s, moves[0], h, search);
      if h in next.foreign.handles {
        SearchIsKept(next, moves[1..], s', h, search);
      } else {
        assert Live(s.foreign, h);
        NextGrows(s, moves[0]);
        DeadHandleNeverReturns(next, moves[1..], s', h);
      }
    }
  }

  lemma GoodSearchIsMade(s: World, w: nat)
    requires Inv(s) && w in s.wrappers && s.wrappers[w].h.Some? && s.wrappers[w].nearest.None?
    ensures var f, h := Next(s, Nearest(w, Good)).foreign, s.wrappers[w].h.value;
            && HasSearch(f, h, s.foreign.next)
            && (forall x :: MadeFrom(f, x, h) ==> MadeFrom(s.foreign, x, h) || x == s.foreign.next)
  {
    assert WrapperOk(s.foreign, s.wrappers[w]);
  }

  lemma SearchHasOwner(s: World, h: nat, search: nat)
    requires Inv(s) && HasSearch(s.foreign, h, search)
    ensures exists v :: OwnedBy(s, v, h) && OwnedBy(s, v, search)
  {
    assert Live(s.foreign, search);
    var v :| OwnedBy(s, v, search);
    assert WrapperOk(s.foreign, s.wrappers[v]);
    assert OwnedBy(s, v, h);
  }

  lemma StartIsOwned()
    ensures Inv(START)
  {
  }

  /**
   A good search is made once and kept: from the moment a handle has one, in every run in which the handle is
   not deleted the search stays live, and no other search is ever made from that handle, however it is moved.
   */
  lemma SearchIsMadeOnce(moves: seq<Move>, s: World, w: nat, more: seq<Move>, s': World)
    requires Leads(START, moves, s) && w in s.wrappers && s.wrappers[w].h.Some? && s.wrappers[w].nearest.None?
    requires Leads(Next(s, Nearest(w, Good)), more, s') && s.wrappers[w].h.value in s'.foreign.handles
    ensures var h, made := s.wrappers[w].h.value, s.foreign.next;
            && HasSearch(s'.foreign, h, made)
            && (exists v :: OwnedBy(s', v, h) && OwnedBy(s', v, made))
            && (forall x :: MadeFrom(s'.foreign, x, h) ==> MadeFrom(s.foreign, x, h) || x == made)
  {
    hide Inv;
    hide Next;
    hide HasSearch;
    StartIsOwned();
    RunKeepsInv(START, moves, s);
    var first := Next(s, Nearest(w, Good));
    NextKeepsInv(s, Nearest(w, Good));
    GoodSearchIsMade(s, w);
    SearchIsKept(first, more, s', s.wrappers[w].h.value, s.foreign.next);
    RunKeepsInv(first, more, s');
    SearchHasOwner(s', s.wrappers[w].h.value, s.foreign.next);
  }

  /** Nothing is deleted twice, and a handle never before a search made from it. */
  lemma DeletedOnceSearchFirst(moves: seq<Move>, s: World, i: nat, j: nat)
    requires Leads(START, moves, s) && i < |s.foreign.deleted| && j < |s.foreign.deleted|
    ensures s.foreign.deleted[i] == s.foreign.deleted[j] ==> i == j
    ensures (s.foreign.deleted[i] in s.foreign.madeFrom
             && s.foreign.madeFrom[s.foreign.deleted[i]] == s.foreign.deleted[j]) ==> i < j
  {
    RunKeepsInv(START, moves, s);
    var f := s.foreign;
    if f.deleted[i] in f.madeFrom && f.madeFrom[f.deleted[i]] == f.deleted[j] {
      var k :| 0 <= k < j && f.deleted[..j][k] == f.deleted[i];
      assert f.deleted[k] == f.deleted[i];
    }
  }

  /** Once all wrappers are gone nothing is live: everything ever made was deleted, exactly once. */
  lemma NothingLeaks(moves: seq<Move>, s: World)
    requires Leads(START, moves, s) && s.wrappers == map[]
    ensures s.foreign.handles == {} && s.foreign.searches == {}
    ensures forall id: nat :: id < s.foreign.next ==> id in s.foreign.deleted
  {
    RunKeepsInv(START, moves, s);
    assert forall w, id :: !OwnedBy(s, w, id);
    assert forall id: nat :: !Live(s.foreign, id);
    assert forall id :: id in s.foreign.handles ==> Live(s.foreign, id);
    assert forall id :: id in s.foreign.searches ==> Live(s.foreign, id);
  }
}
