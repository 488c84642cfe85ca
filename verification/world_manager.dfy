/**
 * `isk::WorldManager` (world_manager.hpp, world_manager.cpp): four lists of
 * handler functions, for update, garbage collection, load and save.
 * Registering ignores a null handler and one already listed; `update` and
 * `gc` call every handler of their list; `load` and `save` return -1 for a
 * null file or an empty list, and otherwise call their handlers in order
 * and stop at the first that returns a negative code, which they pass on.
 *
 * Handlers are foreign functions: each is modelled by an identifying
 * number, `None` standing for a null function pointer.  What the load and
 * save handlers return is a parameter (`outcomes[k]` is what the `k`-th
 * handler would return), and each operation reports the calls it made.
 */
module WorldManagers {
  import opened Wrappers

  /** A call of a handler, by list. */
  datatype Call = Update(h: nat) | Gc(h: nat) | Load(h: nat) | Save(h: nat)

  /** No handler is listed twice. */
  predicate NoDuplicates(hs: seq<nat>)
  {
    forall i, j | 0 <= i < j < |hs| :: hs[i] != hs[j]
  }

  /**
   * `REGISTER_BODY(dest)` on the list `hs`: a null handler and one already
   * listed leave the list alone; any other is appended.
   */
  function Registered(hs: seq<nat>, src: Option<nat>): (r: seq<nat>)
    ensures NoDuplicates(hs) ==> NoDuplicates(r)
    ensures |hs| <= |r| <= |hs| + 1 && r[..|hs|] == hs
    ensures forall h :: h in r <==> h in hs || src == Some(h)
  {
    if src.None? then hs
    else if src.value in hs then hs
    else hs + [src.value]
  }

  /** Registering the same handler again changes nothing. */
  lemma RegisterIdempotent(hs: seq<nat>, src: Option<nat>)
    ensures Registered(Registered(hs, src), src) == Registered(hs, src)
  {
  }

  /**
   * Running handlers that return `outcomes` in order until one fails: the
   * code passed on (the first negative outcome, or 0) and how many were called.
   */
  function RunUntilFailure(outcomes: seq<int>): (r: (int, nat))
    ensures r.0 <= 0 && r.1 <= |outcomes|
    ensures r.0 == 0 <==> forall k | 0 <= k < |outcomes| :: 0 <= outcomes[k]
    ensures r.0 == 0 ==> r.1 == |outcomes|
    ensures r.0 < 0 ==> 0 < r.1 && r.0 == outcomes[r.1 - 1]
    ensures forall k | 0 <= k < r.1 - 1 :: 0 <= outcomes[k]
    decreases |outcomes|
  {
    if outcomes == [] then (0, 0)
    else if 0 > outcomes[0] then (outcomes[0], 1)
    else
      var rest := RunUntilFailure(outcomes[1..]);
      assert forall k | 1 <= k < |outcomes| :: outcomes[k] == outcomes[1..][k - 1];
      (rest.0, rest.1 + 1)
  }

  /** The calls of a whole list, in order. */
  function Calls(hs: seq<nat>, call: nat -> Call): (r: seq<Call>)
    ensures |r| == |hs| && forall k | 0 <= k < |hs| :: r[k] == call(hs[k])
  {
    seq(|hs|, k requires 0 <= k < |hs| => call(hs[k]))
  }

  class WorldManager {
    var updateHandlers: seq<nat>
    var gcHandlers: seq<nat>
    var loadHandlers: seq<nat>
    var saveHandlers: seq<nat>

    /** Registration keeps every list free of repeats. */
    predicate Valid()
      reads this
    {
      NoDuplicates(updateHandlers) && NoDuplicates(gcHandlers) &&
      NoDuplicates(loadHandlers) && NoDuplicates(saveHandlers)
    }

    /** `WorldManager()`: all lists empty. */
    constructor ()
      ensures Valid()
      ensures updateHandlers == gcHandlers == loadHandlers == saveHandlers == []
    {
      updateHandlers, gcHandlers, loadHandlers, saveHandlers := [], [], [], [];
    }

    /** `REGISTER_BODY`: the shared body of the four `register_*` methods. */
    static method Register(hs: seq<nat>, src: Option<nat>) returns (r: seq<nat>)
      ensures r == Registered(hs, src)
    {
      if src.None? {
        return hs;
      }
      if 0 < |hs| {
        var i := 0;
        while i < |hs|
          invariant 0 <= i <= |hs| && src.value !in hs[..i]
          decreases |hs| - i
        {
          if hs[i] == src.value {
            return hs;
          }
          i := i + 1;
        }
        assert hs[..i] == hs;
      }
      return hs + [src.value];
    }

    /** `register_update(src)`. */
    method RegisterUpdate(src: Option<nat>)
      requires Valid()
      modifies this
      ensures Valid() && updateHandlers == Registered(old(updateHandlers), src)
      ensures gcHandlers == old(gcHandlers) && loadHandlers == old(loadHandlers) && saveHandlers == old(saveHandlers)
    {
      updateHandlers := Register(updateHandlers, src);
    }

    /** `register_gc(src)`. */
    method RegisterGc(src: Option<nat>)
      requires Valid()
      modifies this
      ensures Valid() && gcHandlers == Registered(old(gcHandlers), src)
      ensures updateHandlers == old(updateHandlers) && loadHandlers == old(loadHandlers) && saveHandlers == old(saveHandlers)
    {
      gcHandlers := Register(gcHandlers, src);
    }

    /** `register_load(src)`. */
    method RegisterLoad(src: Option<nat>)
      requires Valid()
      modifies this
      ensures Valid() && loadHandlers == Registered(old(loadHandlers), src)
      ensures updateHandlers == old(updateHandlers) && gcHandlers == old(gcHandlers) && saveHandlers == old(saveHandlers)
    {
      loadHandlers := Register(loadHandlers, src);
    }

    /** `register_save(src)`. */
    method RegisterSave(src: Option<nat>)
      requires Valid()
      modifies this
      ensures Valid() && saveHandlers == Registered(old(saveHandlers), src)
      ensures updateHandlers == old(updateHandlers) && gcHandlers == old(gcHandlers) && loadHandlers == old(loadHandlers)
    {
      saveHandlers := Register(saveHandlers, src);
    }

    /** `update()`: every update handler is called once, in order. */
    method RunUpdate() returns (calls: seq<Call>)
      ensures calls == Calls(updateHandlers, (h: nat) => Update(h))
    {
      calls := [];
      if |updateHandlers| == 0 {
        return;
      }
      var i := 0;
      while i < |updateHandlers|
        invariant 0 <= i <= |updateHandlers| && calls == Calls(updateHandlers[..i], (h: nat) => Update(h))
        decreases |updateHandlers| - i
      {
        calls := calls + [Update(updateHandlers[i])];
        i := i + 1;
      }
      assert updateHandlers[..i] == updateHandlers;
    }

    /** `gc()`: every garbage-collection handler is called once, in order. */
    method RunGc() returns (calls: seq<Call>)
      ensures calls == Calls(gcHandlers, (h: nat) => Gc(h))
    {
      calls := [];
      if |gcHandlers| == 0 {
        return;
      }
      var i := 0;
      while i < |gcHandlers|
        invariant 0 <= i <= |gcHandlers| && calls == Calls(gcHandlers[..i], (h: nat) => Gc(h))
        decreases |gcHandlers| - i
      {
        calls := calls + [Gc(gcHandlers[i])];
        i := i + 1;
      }
      assert gcHandlers[..i] == gcHandlers;
    }

    /**
     * `load(src)`: -1 for a null file or no load handler; otherwise the
     * handlers run in order until one fails, and its code is returned.
     */
    method RunLoad(fileOpen: bool, outcomes: seq<int>) returns (r: int, calls: seq<Call>)
      requires |outcomes| == |loadHandlers|
      ensures !fileOpen || loadHandlers == [] ==> r == -1 && calls == []
      ensures fileOpen && loadHandlers != [] ==>
        var run := RunUntilFailure(outcomes);
        r == run.0 && calls == Calls(loadHandlers[..run.1], (h: nat) => Load(h))
    {
      if !fileOpen {
        return -1, [];
      }
      if |loadHandlers| == 0 {
        return -1, [];
      }
      r, calls := RunFileHandlers(loadHandlers, outcomes, (h: nat) => Load(h));
    }

    /**
     * `save(dest)`: -1 for a null file or no save handler; otherwise `gc()`
     * runs first, then the save handlers in order until one fails.
     */
    method RunSave(fileOpen: bool, outcomes: seq<int>) returns (r: int, calls: seq<Call>)
      requires |outcomes| == |saveHandlers|
      ensures !fileOpen || saveHandlers == [] ==> r == -1 && calls == []
      ensures fileOpen && saveHandlers != [] ==>
        var run := RunUntilFailure(outcomes);
        r == run.0 && calls == Calls(gcHandlers, (h: nat) => Gc(h)) + Calls(saveHandlers[..run.1], (h: nat) => Save(h))
    {
      if !fileOpen {
        return -1, [];
      }
      if |saveHandlers| == 0 {
        return -1, [];
      }
      var gcCalls := RunGc();
      var saveCalls;
      r, saveCalls := RunFileHandlers(saveHandlers, outcomes, (h: nat) => Save(h));
      calls := gcCalls + saveCalls;
    }
  }

  /** The loop shared by `load` and `save`: call each handler until one returns a negative code. */
  method RunFileHandlers(hs: seq<nat>, outcomes: seq<int>, call: nat -> Call) returns (r: int, calls: seq<Call>)
    requires |outcomes| == |hs|
    ensures var run := RunUntilFailure(outcomes);
      r == run.0 && calls == Calls(hs[..run.1], call)
  {
    calls := [];
    var i := 0;
    while i < |hs|
      invariant 0 <= i <= |hs| && calls == Calls(hs[..i], call)
      invariant forall k | 0 <= k < i :: 0 <= outcomes[k]
      decreases |hs| - i
    {
      var ret := outcomes[i];
      calls := calls + [call(hs[i])];
      if 0 > ret {
        assert calls == Calls(hs[..i + 1], call);
        return ret, calls;
      }
      i := i + 1;
    }
    assert hs[..i] == hs;
    return 0, calls;
  }
}
