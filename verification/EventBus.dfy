/** The shared bus object: fresh envelope ids, the bounded audit trail and the dead-letter list. */
module Bus {

  const TRAIL := 500

  /** The newest `TRAIL` of the first `n` ids, newest first. */
  function Newest(n: nat): (ids: seq<nat>)
    ensures |ids| == (if n <= TRAIL then n else TRAIL) && forall i :: 0 <= i < |ids| ==> ids[i] == n - 1 - i
  {
    seq(if n <= TRAIL then n else TRAIL, i requires 0 <= i < n => n - 1 - i)
  }

  class EventBus<T> {
    var sent: seq<T>
    var trail: seq<nat>
    var deadLetters: seq<nat>

    ghost predicate Valid()
      reads this
    {
      trail == Newest(|sent|) && forall id :: id in deadLetters ==> id < |sent|
    }

    constructor ()
      ensures Valid() && sent == [] && deadLetters == []
    {
      sent, trail, deadLetters := [], [], [];
    }

    /** The trail is pushed and trimmed; what it holds is always the newest ids. */
    method Publish(data: T) returns (id: nat)
      requires Valid()
      modifies this`sent, this`trail
      ensures Valid() && sent == old(sent) + [data]
      ensures id == |old(sent)| && id !in old(trail) && id !in deadLetters
    {
      id := |sent|;
      sent := sent + [data];
      trail := [id] + trail;
      if |trail| > TRAIL {
        trail := trail[..TRAIL];
      }
    }

    /** A subscriber's callback: a handler that throws puts its event on the dead-letter list. */
    method Receive(id: nat, handled: bool)
      requires Valid() && id < |sent|
      modifies this`deadLetters
      ensures Valid() && deadLetters == if handled then old(deadLetters) else [id] + old(deadLetters)
    {
      if !handled {
        deadLetters := [id] + deadLetters;
      }
    }
  }
}
