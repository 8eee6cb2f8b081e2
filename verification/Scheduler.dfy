/**
 The code behind the steps of `Contexts`: the context list (kernel/src/context/list.rs),
 the scanning loops of `switch` and the field updates of the fused calls.
 */
module Scheduler {
  import opened Wrappers
  import opened Contexts

  const CONTEXT_MAX_CONTEXTS: nat := 0x7fff_ffff_ffff_fffe

  ghost predicate Ascending(ids: seq<nat>) {
    forall i, j :: 0 <= i < j < |ids| ==> ids[i] < ids[j]
  }

  ghost predicate AllAbove(ids: seq<nat>, low: nat) {
    forall x :: x in ids ==> low < x
  }

  lemma ConsAscending(low: nat, ids: seq<nat>)
    requires Ascending(ids) && AllAbove(ids, low)
    ensures Ascending([low] + ids)
  {
    var more := [low] + ids;
    forall i, j | 0 <= i < j < |more|
      ensures more[i] < more[j]
    {
      assert more[j] == ids[j - 1];
      assert more[j] in ids;
    }
  }

  /** The keys of the ordered map after inserting a new one. */
  function WithKey(ids: seq<nat>, id: nat): (more: seq<nat>)
    requires Ascending(ids) && id !in ids
    ensures Ascending(more)
    ensures forall x :: x in more <==> x == id || x in ids
  {
    if ids == [] then [id]
    else if id < ids[0] then
      ConsAscending(id, ids);
      [id] + ids
    else
      var rest := WithKey(ids[1..], id);
      assert ids == [ids[0]] + ids[1..];
      ConsAscending(ids[0], rest);
      [ids[0]] + rest
  }

  ghost function From(ids: set<nat>, n: nat): set<nat> {
    set k | k in ids && n <= k
  }

  /** `while map.contains_key(next_id) { next_id += 1 }`. */
  method FirstFree(contexts: map<nat, Context>, start: nat) returns (id: nat)
    ensures start <= id && id !in contexts
    ensures forall k :: start <= k < id ==> k in contexts
  {
    id := start;
    while id in contexts
      invariant start <= id && forall k :: start <= k < id ==> k in contexts
      decreases |From(contexts.Keys, id)|
    {
      assert From(contexts.Keys, id + 1) == From(contexts.Keys, id) - {id};
      id := id + 1;
    }
  }

  class ContextList {
    var contexts: map<nat, Context>
    /** The keys in iteration order. */
    var order: seq<nat>
    var nextId: nat
    var current: map<nat, nat>
    /** How many contexts were created so far. */
    var clock: nat

    ghost predicate Valid()
      reads this
    {
      Ascending(order) && (forall id :: id in contexts <==> id in order)
    }

    ghost function Now(): State
      reads this
    {
      State(contexts, current, clock)
    }

    constructor ()
      ensures Valid() && Now() == State(map[], map[], 0) && nextId == 1
    {
      contexts, order, nextId, current, clock := map[], [], 1, map[], 0;
    }

    /** `ContextList::insert`: the first free id from `next_id` on, or failure. */
    method Insert(context: Context) returns (inserted: Option<nat>)
      requires Valid()
      modifies this
      ensures Valid() && current == old(current)
      ensures var limit := 0x7fff_ffff_ffff_fffe;
              var first := if old(nextId) >= limit then 1 else old(nextId);
              match inserted
              case None =>
                && contexts == old(contexts) && clock == old(clock)
                && forall id :: first <= id < limit ==> id in old(contexts)
              case Some(id) =>
                && first <= id < limit && id !in old(contexts)
                && (forall k :: first <= k < id ==> k in old(contexts))
                && Now() == Inserted(old(Now()), id, context) && nextId == id + 1
    {
      hide Ascending, WithKey;
      if nextId >= CONTEXT_MAX_CONTEXTS {
        nextId := 1;
      }
      nextId := FirstFree(contexts, nextId);
      if nextId >= CONTEXT_MAX_CONTEXTS {
        return None;
      }
      var id := nextId;
      nextId := nextId + 1;
      order := WithKey(order, id);
      contexts := contexts[id := context.(born := clock)];
      clock := clock + 1;
      inserted := Some(id);
    }

    /** Every context without an owner becomes this CPU's. */
    method Update(c: nat)
      requires Valid()
      modifies this`contexts
      ensures Valid() && contexts == Owning(old(Now()), c)
      ensures forall id :: id in contexts ==>
                contexts[id].cpu == if old(contexts)[id].cpu.None? then Some(c) else old(contexts)[id].cpu
    {
      for k := 0 to |order|
        invariant contexts.Keys == old(contexts).Keys
        invariant forall id :: id in contexts ==>
          contexts[id] == if id in order[..k] then old(contexts)[id].Owned(c) else old(contexts)[id]
      {
        contexts := contexts[order[k] := contexts[order[k]].Owned(c)];
        assert order[..k + 1] == order[..k] + [order[k]];
      }
      assert order[..|order|] == order;
    }

    /** The two scans of `switch`: ids above `from` first, then ids below. */
    method Choose(c: nat, from: nat) returns (to: Option<nat>)
      requires Valid()
      ensures Chosen(contexts, c, from, to)
      ensures to.Some? ==>
                && to.value in contexts && to.value != from && contexts[to.value].cpu == Some(c)
                && (contexts[to.value].status.Runnable? || contexts[to.value].status.New?)
      ensures to.None? ==> forall x :: x in contexts && x != from && contexts[x].cpu == Some(c) ==>
                !contexts[x].status.Runnable? && !contexts[x].status.New?
    {
      to := None;
      for k := 0 to |order|
        invariant to.None?
        invariant forall j :: 0 <= j < k && order[j] > from ==> !contexts[order[j]].RunnableOn(c)
      {
        if order[k] > from && contexts[order[k]].RunnableOn(c) {
          FirstAbove(c, from, k);
          return Some(order[k]);
        }
      }
      for k := 0 to |order|
        invariant to.None?
        invariant forall j :: 0 <= j < k && order[j] < from ==> !contexts[order[j]].RunnableOn(c)
      {
        if order[k] < from && contexts[order[k]].RunnableOn(c) {
          FirstBelow(c, from, k);
          return Some(order[k]);
        }
      }
      forall x | x in contexts && x != from
        ensures !contexts[x].RunnableOn(c)
      {
        var j :| 0 <= j < |order| && order[j] == x;
      }
    }

    lemma FirstAbove(c: nat, from: nat, k: nat)
      requires Valid() && k < |order| && order[k] > from && contexts[order[k]].RunnableOn(c)
      requires forall j :: 0 <= j < k && order[j] > from ==> !contexts[order[j]].RunnableOn(c)
      ensures Chosen(contexts, c, from, Some(order[k]))
    {
    }

    lemma FirstBelow(c: nat, from: nat, k: nat)
      requires Valid() && k < |order| && order[k] < from && contexts[order[k]].RunnableOn(c)
      requires forall j :: 0 <= j < k && order[j] < from ==> !contexts[order[j]].RunnableOn(c)
      requires forall j :: 0 <= j < |order| && order[j] > from ==> !contexts[order[j]].RunnableOn(c)
      ensures Chosen(contexts, c, from, Some(order[k]))
    {
    }

    /** `switch`: false when there is nothing to switch to. */
    method SwitchContext(c: nat) returns (switched: bool)
      requires Valid() && c in current && current[c] in contexts
      modifies this`contexts, this`current
      ensures Valid()
      ensures exists to: Option<nat> :: switched == to.Some?
                && Enabled(old(Now()), Switch(c, to)) && Now() == After(old(Now()), Switch(c, to))
    {
      var from := current[c];
      Update(c);
      var to := Choose(c, from);
      if to.Some? {
        var f, t := from, to.value;
        if contexts[f].status.Running? {
          contexts := contexts[f := contexts[f].(status := Runnable)];
        }
        var isNew := contexts[t].status.New?;
        contexts := contexts[t := contexts[t].(status := Running, point := if isNew then User else contexts[t].point)];
        current := current[c := t];
      }
      switched := to.Some?;
      assert Enabled(old(Now()), Switch(c, to)) && Now() == After(old(Now()), Switch(c, to));
    }

    /** The state part of `cast_inner`: a new context that any CPU may pick up. */
    method CastInner(c: nat) returns (id: Option<nat>)
      requires Valid() && AtPoint(Now(), c, User)
      modifies this
      ensures Valid()
      ensures id.None? ==> contexts == old(contexts) && current == old(current)
      ensures id.Some? ==> Enabled(old(Now()), Cast(c, id.value)) && Now() == After(old(Now()), Cast(c, id.value))
    {
      id := Insert(SPAWNED.(status := New));
    }

    /** `fuse_inner` up to the switch: the callee is listed, blocked, linked to its caller and on its CPU. */
    method FuseInner(c: nat) returns (id: Option<nat>)
      requires Valid() && AtPoint(Now(), c, User)
      modifies this
      ensures Valid()
      ensures id.None? ==> contexts == old(contexts) && current == old(current)
      ensures id.Some? ==>
        Enabled(old(Now()), FuseInsert(c, id.value)) && Now() == After(old(Now()), FuseInsert(c, id.value))
    {
      var p := current[c];
      id := Insert(SPAWNED.(retLink := Some(p), cpu := contexts[p].cpu));
      if id.Some? {
        contexts := contexts[p := contexts[p].(point := Fused(id.value))];
      }
    }

    /** `fuse_switch`: the callee runs, and its caller, found by the link, is blocked if it was runnable. */
    method FuseSwitchTo(c: nat)
      requires Valid() && Inv(Now()) && Enabled(Now(), FuseSwitch(c))
      modifies this`contexts, this`current
      ensures Valid() && Now() == After(old(Now()), FuseSwitch(c))
    {
      assert Good(Now(), current[c]);
      var q := contexts[current[c]].point.callee;
      contexts := contexts[q := contexts[q].(status := Running, point := User)];
      current := current[c := q];
      var from := contexts[q].retLink.value;
      contexts := contexts[from := contexts[from].Block().(point := Waiting(q))];
    }

    /** `exit`: marked exited first, then back to the linked caller, if there is one, whatever its status. */
    method ExitCurrent(c: nat) returns (returned: bool)
      requires Valid() && Inv(Now()) && Enabled(Now(), Exit(c))
      modifies this`contexts, this`current
      ensures Valid() && Inv(Now())
      ensures returned == old(contexts[current[c]].retLink.Some?)
      ensures var left := After(old(Now()), Exit(c));
              if returned then Enabled(left, FuseReturn(c)) && Now() == After(left, FuseReturn(c)) else Now() == left
      ensures var q := old(current[c]);
              && q in contexts && contexts[q].status.Exited? && contexts[q].result == old(contexts[q].result)
              && (returned ==> Resumes(c, old(contexts[q].retLink).value, q))
    {
      hide Inv;
      KeepInv(Now(), Exit(c));
      RunsHere(c);
      var q := current[c];
      var parent := contexts[q].retLink;
      contexts := contexts[q := contexts[q].(status := Exited, retLink := None, point := Leaving(parent))];
      returned := parent.Some?;
      if returned {
        KeepInv(Now(), FuseReturn(c));
        var p := parent.value;
        contexts := contexts[q := contexts[q].Unblock().(point := Gone(Some(p)))];
        contexts := contexts[p := contexts[p].(status := Running, point := Resumed(q))];
        current := current[c := p];
      }
    }

    lemma RunsHere(c: nat)
      requires Inv(Now()) && c in current && current[c] in contexts
      ensures contexts[current[c]].retLink.Some? ==>
                contexts[current[c]].retLink.value in contexts && contexts[current[c]].retLink.value != current[c]
    {
      assert Good(Now(), current[c]);
    }

    /** CPU `c` is back in the caller `p`, about to take the result of `q`. */
    ghost predicate Resumes(c: nat, p: nat, q: nat)
      reads this
    {
      c in current && current[c] == p && p in contexts && contexts[p].status.Running? && contexts[p].point == Resumed(q)
    }

    /** `sys_return`: on return to a caller, the caller is about to take exactly `v`. */
    method SysReturn(c: nat, v: Value) returns (returned: bool)
      requires Valid() && Inv(Now()) && Enabled(Now(), Step.SysReturn(c, v))
      modifies this`contexts, this`current
      ensures Valid() && Inv(Now())
      ensures returned == old(contexts[current[c]].retLink.Some?)
      ensures var q := old(current[c]);
              && q in contexts && contexts[q].status.Exited? && contexts[q].result == Some(v)
              && (returned ==> Resumes(c, old(contexts[q].retLink).value, q))
    {
      hide Inv;
      KeepInv(Now(), Step.SysReturn(c, v));
      var p := current[c];
      contexts := contexts[p := contexts[p].(result := Some(v), given := Some(v), point := Returned)];
      returned := ExitCurrent(c);
    }

    /** The end of `fuse_inner`: nothing when the callee did not return. */
    method TakeReturned(c: nat, q: nat) returns (v: Option<Value>)
      requires Valid() && Inv(Now()) && c in current && Resumes(c, current[c], q)
      modifies this`contexts
      ensures Valid() && Inv(Now()) && q in old(contexts) && v == old(contexts[q].result)
      ensures v.Some? ==> Now() == After(old(Now()), TakeResult(c))
      ensures v.None? ==> contexts == old(contexts)
    {
      hide Inv;
      CalleeThere(c, q);
      v := contexts[q].result;
      if v.Some? {
        KeepInv(Now(), TakeResult(c));
        var p := current[c];
        contexts := contexts[q := contexts[q].(result := None)];
        contexts := contexts[p := contexts[p].(point := User)];
      }
    }

    lemma CalleeThere(c: nat, q: nat)
      requires Inv(Now()) && c in current && Resumes(c, current[c], q)
      ensures q in contexts
    {
      assert Good(Now(), current[c]);
    }
  }

}
