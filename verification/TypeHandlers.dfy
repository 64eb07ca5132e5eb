/** The handle allocator. */
module TypeHandlers {
  import opened Basics
  import opened H = Handles

  /** What a failed search for a handle returns: the largest 32-bit number. */
  const NO_KEY: nat := 0xFFFF_FFFF

  class TypeHandler<T(==)> {
    var handlers: map<nat, Option<T>>
    var freeIds: seq<nat>

    function View(): Table<T> reads this { Table(handlers, freeIds) }

    constructor ()
      ensures View() == Empty<T>().table && H.Valid(View())
    {
      handlers, freeIds := map[], [];
    }

    method Create(data: Option<T>) returns (id: nat)
      requires H.Valid(View())
      modifies this
      ensures H.Valid(View()) && View() == Step(old(View()), Op.Create(data))
      ensures id == NextId(old(View())) && !IsLive(old(View()), id)
      ensures handlers == old(handlers)[id := data]
      ensures if old(freeIds) == [] then id == |old(handlers)| && freeIds == []
              else id == old(freeIds)[0] && freeIds == old(freeIds)[1..]
    {
      CreateIsNeverLive(View(), data);
      id := 0;
      if freeIds != [] {
        id := freeIds[0];
        freeIds := freeIds[1..];
      } else {
        id := |handlers|;
      }
      handlers := handlers[id := data];
    }

    method Get(id: nat) returns (data: Option<T>)
      ensures data == if id in handlers then handlers[id] else None
    {
      if id in handlers { return handlers[id]; } else { return None; }
    }

    /** Looks through the handles in no particular order. */
    method GetKey(data: Option<T>) returns (key: nat)
      ensures (key in handlers && handlers[key] == data) || (key == NO_KEY && data !in handlers.Values)
    {
      var left := handlers.Keys;
      while left != {}
        invariant left <= handlers.Keys
        invariant forall k :: k in handlers.Keys - left ==> handlers[k] != data
        decreases |left|
      {
        key :| key in left;
        if handlers[key] == data { return; }
        left := left - {key};
      }
      key := NO_KEY;
    }

    method Free(id: nat)
      requires H.Valid(View())
      modifies this
      ensures H.Valid(View()) && View() == Step(old(View()), Op.Free(id))
      ensures if id in old(handlers) && old(handlers)[id].Some?
              then handlers == old(handlers)[id := None] && freeIds == old(freeIds) + [id]
              else handlers == old(handlers) && freeIds == old(freeIds)
    {
      FreeKeepsValid(View(), id);
      if id !in handlers || handlers[id] == None { return; }
      handlers := handlers[id := None];
      freeIds := freeIds + [id];
    }

    method Clear()
      modifies this
      ensures H.Valid(View()) && View() == Step(old(View()), Op.Clear) && handlers == map[] && freeIds == []
    {
      handlers := map[];
      while freeIds != []
        invariant handlers == map[]
        decreases |freeIds|
      {
        freeIds := freeIds[1..];
      }
    }
  }
}
