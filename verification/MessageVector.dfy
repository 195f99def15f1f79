/** The growing pointer array behind the message queue: growth by five and shift-down removal are list operations. */
module MessageVector {
  import opened Common

  class Vector<T> {
    var payload: array<Option<T>>
    var vsize: nat

    ghost predicate Valid()
      reads this, payload
    {
      vsize <= payload.Length && forall i :: 0 <= i < vsize ==> payload[i].Some?
    }

    /** The messages in the vector, in order. */
    ghost function Contents(): (s: seq<T>)
      requires Valid()
      reads this, payload
      ensures |s| == vsize && forall i :: 0 <= i < vsize ==> Some(s[i]) == payload[i]
    {
      seq(vsize, i requires 0 <= i < vsize && Valid() reads this, payload => payload[i].value)
    }

    constructor ()
      ensures Valid() && Contents() == [] && payload.Length == 5 && fresh(payload)
    {
      payload := new Option<T>[5](_ => None);
      vsize := 0;
    }

    /** Append a message; a null pointer only makes room. */
    method Insert(value: Option<T>)
      requires Valid()
      modifies this, payload
      ensures Valid() && (fresh(payload) || payload == old(payload))
      ensures Contents() == old(Contents()) + if value.Some? then [value.value] else []
      ensures payload.Length == old(payload.Length) + if old(vsize) == old(payload.Length) then 5 else 0
    {
      if vsize >= payload.Length {
        var tmp := new Option<T>[payload.Length + 5](_ => None);
        forall i | 0 <= i < vsize {
          tmp[i] := payload[i];
        }
        payload := tmp;
      }
      if value.Some? {
        payload[vsize] := value;
        vsize := vsize + 1;
      }
    }

    method Clear()
      requires Valid()
      modifies this`vsize, payload
      ensures Valid() && Contents() == []
    {
      forall i | 0 <= i < payload.Length {
        payload[i] := None;
      }
      vsize := 0;
    }

    /** Remove the message at `index`, shifting the later ones down; an index past the end is ignored. */
    method Remove(index: nat)
      requires Valid()
      modifies this`vsize, payload
      ensures Valid()
      ensures var was := old(Contents());
        Contents() == if index < |was| then was[..index] + was[index + 1..] else was
    {
      if vsize == 0 || index >= vsize {
        return;
      }
      if vsize == 1 {
        Clear();
        return;
      }
      if vsize != index + 1 {
        forall i | index <= i < vsize - 1 {
          payload[i] := payload[i + 1];
        }
      }
      vsize := vsize - 1;
    }
  }
}
