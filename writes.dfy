/**
 * Last-writer-wins, stated independently of the read loop: a sequence of
 * writes to one variable, read backwards from the latest.
 */
module Writes {

  /** What one event does to one variable. */
  datatype Write<T> = Keep | Set(value: T)

  /** The variable after one write. */
  function Override<T>(current: T, w: Write<T>): (r: T)
    ensures w.Keep? ==> r == current
    ensures w.Set? ==> r == w.value
  {
    match w
    case Keep => current
    case Set(v) => v
  }

  /** The value of the latest `Set` in `ws`, or `init` when there is none. */
  function LastWrite<T>(init: T, ws: seq<Write<T>>): T {
    if ws == [] then init
    else
      match ws[|ws| - 1]
      case Set(v) => v
      case Keep => LastWrite(init, ws[..|ws| - 1])
  }

  /** The `Set` at index `k`, with nothing but `Keep` after it, decides the value. */
  lemma {:induction false} LastWriteIsLatestSet<T>(init: T, ws: seq<Write<T>>, k: int)
    requires 0 <= k < |ws| && ws[k].Set?
    requires forall j :: k < j < |ws| ==> ws[j].Keep?
    ensures LastWrite(init, ws) == ws[k].value
  {
    if k < |ws| - 1 {
      LastWriteIsLatestSet(init, ws[..|ws| - 1], k);
    }
  }

  /** Without any `Set` the variable keeps its initial value. */
  lemma {:induction false} LastWriteWithoutSet<T>(init: T, ws: seq<Write<T>>)
    requires forall j :: 0 <= j < |ws| ==> ws[j].Keep?
    ensures LastWrite(init, ws) == init
  {
    if ws != [] {
      LastWriteWithoutSet(init, ws[..|ws| - 1]);
    }
  }
}
