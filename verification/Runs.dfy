/** Runs of a state machine whose atomic steps are named by events. A step gives nothing where
    the event cannot happen. */
module Runs {
  import opened ByteText

  function Exec<S, E>(step: (S, E) -> Option<S>, start: S, events: seq<E>): Option<S> {
    if events == [] then Some(start)
    else
      match Exec(step, start, events[..|events| - 1])
      case None => None
      case Some(s) => step(s, events[|events| - 1])
  }

  /** A run and one more step. */
  lemma OneMore<S, E>(step: (S, E) -> Option<S>, start: S, events: seq<E>, s: S, e: E) returns (more: seq<E>, t: S)
    requires Exec(step, start, events) == Some(s) && step(s, e).Some?
    ensures more == events + [e] && Exec(step, start, more) == step(s, e) == Some(t)
  {
    more, t := events + [e], step(s, e).value;
    assert more[..|events|] == events;
  }

  /** What holds at the start and is kept by every step holds after every run. */
  lemma {:induction false} Kept<S(!new), E(!new)>(step: (S, E) -> Option<S>, inv: S -> bool, start: S, events: seq<E>)
    requires inv(start)
    requires forall s, e :: inv(s) && step(s, e).Some? ==> inv(step(s, e).value)
    requires Exec(step, start, events).Some?
    ensures inv(Exec(step, start, events).value)
  {
    if events != [] {
      Kept(step, inv, start, events[..|events| - 1]);
    }
  }
}
