/**
 * The jump history: for each document (a notebook or a file editor, known
 * by its id) a stack of the positions jumped from, so that a jump can be
 * undone by returning to the last stored position.
 */
module History {
  import opened Tokens

  /** The stack stored for `id`, or the empty stack when there is none. */
  function Memories<P>(history: map<string, seq<P>>, id: string): seq<P>
  {
    if id in history then history[id] else []
  }

  /** The map after `store(id, position)`: the position pushed onto `id`'s stack, created when missing. */
  function Stored<P>(history: map<string, seq<P>>, id: string, position: P): (h: map<string, seq<P>>)
    ensures id in h && h[id] == Memories(history, id) + [position]
    ensures h.Keys == history.Keys + {id}
    ensures forall other :: other in history && other != id ==> h[other] == history[other]
  {
    history[id := Memories(history, id) + [position]]
  }

  /** What `recollect(id)` returns: nothing without an entry or on an empty stack, else the top of the stack. */
  function Top<P>(history: map<string, seq<P>>, id: string): (r: Option<P>)
    ensures r.None? <==> |Memories(history, id)| == 0
    ensures r.Some? ==> r.value == Last(history[id])
  {
    if id !in history || |history[id]| == 0 then None else Some(Last(history[id]))
  }

  /** The map after `recollect(id)`: the top of a non-empty stack popped, everything else as it was. */
  function Popped<P>(history: map<string, seq<P>>, id: string): (h: map<string, seq<P>>)
    ensures h.Keys == history.Keys
    ensures forall other :: other in history && other != id ==> h[other] == history[other]
    ensures id in history && |history[id]| > 0 ==> h[id] + [Last(history[id])] == history[id]
    ensures id in history && |history[id]| == 0 ==> h[id] == []
  {
    if id in history && |history[id]| > 0 then history[id := history[id][..|history[id]| - 1]] else history
  }

  /** `JumpHistory`: the stacks of jump positions, by document id. */
  class JumpHistory<P> {
    var jumpHistory: map<string, seq<P>>

    constructor()
      ensures jumpHistory == map[]
    {
      jumpHistory := map[];
    }

    /** `store`: push `position` onto the stack of `id`, creating the stack first when there is none. */
    method Store(id: string, position: P)
      modifies this
      ensures jumpHistory == Stored(old(jumpHistory), id, position)
    {
      var memories: seq<P>;
      if id !in jumpHistory {
        memories := [];
        jumpHistory := jumpHistory[id := memories];
      } else {
        memories := jumpHistory[id];
      }
      jumpHistory := jumpHistory[id := memories + [position]];
    }

    /** `recollect`: nothing for an unknown id; otherwise pop the stack of `id`, which gives nothing when it is empty. */
    method Recollect(id: string) returns (r: Option<P>)
      modifies this
      ensures r == Top(old(jumpHistory), id)
      ensures jumpHistory == Popped(old(jumpHistory), id)
    {
      if id !in jumpHistory {
        return None;
      }
      var memories := jumpHistory[id];
      if |memories| == 0 {
        return None;
      }
      r := Some(memories[|memories| - 1]);
      jumpHistory := jumpHistory[id := memories[..|memories| - 1]];
    }
  }

  /** Recollecting right after storing gives the stored position back and restores the stack. */
  lemma StoreThenRecollect<P>(history: map<string, seq<P>>, id: string, position: P)
    ensures Top(Stored(history, id, position), id) == Some(position)
    ensures Popped(Stored(history, id, position), id) == history[id := Memories(history, id)]
  {
    var stack := Memories(history, id) + [position];
    assert stack[..|stack| - 1] == Memories(history, id);
  }

  /** Last in, first out: after storing `p1` and then `p2`, recollecting gives `p2` and then `p1`. */
  lemma LastInFirstOut<P>(history: map<string, seq<P>>, id: string, p1: P, p2: P)
    ensures var h := Stored(Stored(history, id, p1), id, p2);
      Top(h, id) == Some(p2) && Top(Popped(h, id), id) == Some(p1)
  {
    StoreThenRecollect(Stored(history, id, p1), id, p2);
  }

  /** Recollecting for an id that was never stored gives nothing and creates no entry. */
  lemma RecollectUnknown<P>(history: map<string, seq<P>>, id: string)
    requires id !in history
    ensures Top(history, id) == None && Popped(history, id) == history && id !in Popped(history, id)
  {
  }

  /** Recollecting from an empty stack gives nothing and leaves the map as it was. */
  lemma RecollectEmpty<P>(history: map<string, seq<P>>, id: string)
    requires id in history && history[id] == []
    ensures Top(history, id) == None && Popped(history, id) == history
  {
  }

  /** Storing or recollecting for `id` leaves the stack of every other id as it was. */
  lemma OtherIdsUnchanged<P>(history: map<string, seq<P>>, id: string, other: string, position: P)
    requires other != id
    ensures Memories(Stored(history, id, position), other) == Memories(history, other)
    ensures Memories(Popped(history, id), other) == Memories(history, other)
  {
  }

  /** Storing grows the stack of `id` by exactly one; recollecting shrinks it by at most one. */
  lemma StackSizes<P>(history: map<string, seq<P>>, id: string, position: P)
    ensures |Memories(Stored(history, id, position), id)| == |Memories(history, id)| + 1
    ensures |Memories(history, id)| - 1 <= |Memories(Popped(history, id), id)| <= |Memories(history, id)|
  {
    if id in history && |history[id]| > 0 {
      assert |Popped(history, id)[id]| + 1 == |history[id]|;
    }
  }

  /** The map after storing each of `positions` for `id`, in order. */
  function StoredAll<P>(history: map<string, seq<P>>, id: string, positions: seq<P>): map<string, seq<P>>
    decreases |positions|
  {
    if |positions| == 0 then history
    else Stored(StoredAll(history, id, positions[..|positions| - 1]), id, Last(positions))
  }

  /** A stack for `id` built only by `store`s holds the positions in the order stored, the last on top. */
  lemma {:induction false} StoresKeepOrder<P>(history: map<string, seq<P>>, id: string, positions: seq<P>)
    requires id !in history
    ensures Memories(StoredAll(history, id, positions), id) == positions
    decreases |positions|
  {
    if |positions| > 0 {
      StoresKeepOrder(history, id, positions[..|positions| - 1]);
    }
  }
}
