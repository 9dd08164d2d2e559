/** The asynchronous logger: producers append to one buffer under the lock while the
    flush thread swaps it for another and drains that to every appender. Each method is
    one atomic step; any interleaving of them keeps the log stream whole. */
module Loggers {
  import opened Chunks
  import opened ByteArrays

  /** Where the flush thread is. */
  datatype Phase = Waiting | Swapped | Draining(next: nat)

  /** What appender `j` has not been given of the buffer taken out. */
  function Pending(phase: Phase, taken: seq<Byte>, j: nat): seq<Byte> {
    match phase
    case Waiting => []
    case Swapped => taken
    case Draining(i) => if j < i then [] else taken
  }

  /** Every appender's output, then what is taken out and still owed to it, is all that was
      logged up to the last swap, in order; what is being collected has been logged since. */
  ghost predicate Conserved(outs: seq<seq<Byte>>, phase: Phase, taken: seq<Byte>, current: seq<Byte>,
                            cut: seq<Byte>, logged: seq<Byte>) {
    cut + current == logged && forall j | 0 <= j < |outs| :: outs[j] + Pending(phase, taken, j) == cut
  }

  /** So each output is a prefix of what was logged, and all up to the last swap once the
      flush thread is waiting again. */
  lemma OutputsArePrefixes(outs: seq<seq<Byte>>, phase: Phase, taken: seq<Byte>, current: seq<Byte>,
                           cut: seq<Byte>, logged: seq<Byte>, j: nat)
    requires Conserved(outs, phase, taken, current, cut, logged) && j < |outs|
    ensures outs[j] <= cut <= logged && (phase == Waiting ==> outs[j] == cut)
  {
    assert outs[j] + Pending(phase, taken, j) == cut;
  }

  lemma Joined(a: seq<Byte>, b: seq<Byte>, c: seq<Byte>)
    ensures a + b + c == a + (b + c)
  {
  }

  lemma ConservedLog(outs: seq<seq<Byte>>, phase: Phase, taken: seq<Byte>, current: seq<Byte>,
                     cut: seq<Byte>, logged: seq<Byte>, text: seq<Byte>)
    requires Conserved(outs, phase, taken, current, cut, logged)
    ensures Conserved(outs, phase, taken, current + text, cut, logged + text)
  {
    Joined(cut, current, text);
  }

  lemma ConservedSwap(outs: seq<seq<Byte>>, taken: seq<Byte>, current: seq<Byte>, cut: seq<Byte>, logged: seq<Byte>)
    requires Conserved(outs, Waiting, taken, current, cut, logged)
    ensures Conserved(outs, Swapped, current, [], logged, logged)
  {
    assert logged + [] == logged;
    forall j | 0 <= j < |outs| ensures outs[j] + current == logged {
      assert outs[j] + [] == cut;
    }
  }

  lemma ConservedDrain(outs: seq<seq<Byte>>, i: nat, taken: seq<Byte>, current: seq<Byte>, cut: seq<Byte>,
                       logged: seq<Byte>)
    requires i < |outs| && Conserved(outs, Draining(i), taken, current, cut, logged)
    ensures Conserved(outs[i := outs[i] + taken], Draining(i + 1), taken, current, cut, logged)
  {
    var outs' := outs[i := outs[i] + taken];
    forall j | 0 <= j < |outs| ensures outs'[j] + Pending(Draining(i + 1), taken, j) == cut {
      assert outs[j] + Pending(Draining(i), taken, j) == cut;
      assert outs[i] + taken + [] == outs[i] + taken;
    }
  }

  /** A buffer that is being filled, and holds `bytes`. */
  ghost predicate Filled(ba: ByteArray, bytes: seq<Byte>)
    reads ba, ba.Repr
  {
    ba.Appending() && ba.Written() == bytes
  }

  /** A buffer that is rewound for draining, and holds `bytes`. */
  ghost predicate Rewound(ba: ByteArray, bytes: seq<Byte>)
    reads ba, ba.Repr
  {
    ba.Valid() && ba.Synced() && ba.position == 0 && bytes != [] && ba.Written() == bytes
  }

  method NewBuffer(base: nat) returns (ba: ByteArray)
    requires base > 0
    ensures fresh(ba) && fresh(ba.Repr) && ba !in ba.Repr && Filled(ba, [])
  {
    ba := new ByteArray(base);
  }

  ghost predicate Apart(a: ByteArray, b: ByteArray)
    reads a, b
  {
    a != b && a !in b.Repr && b !in a.Repr && a.Repr !! b.Repr
  }

  datatype Step = Log(level: int, text: seq<Byte>) | Flush

  /** What one step logs: a text whose level is high enough. */
  function TextOf(step: Step, level: int): seq<Byte> {
    if step.Log? && step.level >= level then step.text else []
  }

  /** What a run of steps logs, in lock order. */
  function Texts(steps: seq<Step>, level: int): seq<Byte> {
    if steps == [] then [] else TextOf(steps[0], level) + Texts(steps[1..], level)
  }

  /** How many of the steps are the flush thread's. */
  function Flushes(steps: seq<Step>): nat {
    if steps == [] then 0 else (if steps[0].Flush? then 1 else 0) + Flushes(steps[1..])
  }

  /** How many steps the flush thread needs at most to be waiting again, for `n` appenders. */
  function Turns(phase: Phase, n: nat): nat {
    match phase
    case Waiting => 0
    case Swapped => n + 2
    case Draining(i) => if i < n then n - i + 1 else 1
  }

  class Logger {
    const level: int
    var currentBuffer: ByteArray
    var bufferToWrite: ByteArray
    var outs: seq<seq<Byte>>      // the file behind each appender
    var phase: Phase
    ghost var logged: seq<Byte>   // all that was logged, in lock order
    ghost var cut: seq<Byte>      // what had been logged at the last swap
    ghost var swaps: nat          // how many swaps there were
    ghost var current: seq<Byte>  // what currentBuffer holds
    ghost var taken: seq<Byte>    // what bufferToWrite holds
    ghost var Repr: set<object>

    ghost predicate Valid()
      reads this, Repr
    {
      && this in Repr && currentBuffer in Repr && bufferToWrite in Repr
      && currentBuffer.Repr <= Repr && bufferToWrite.Repr <= Repr
      && Apart(currentBuffer, bufferToWrite) && this !in currentBuffer.Repr && this !in bufferToWrite.Repr
      && Filled(currentBuffer, current)
      && (if phase.Draining? then phase.next <= |outs| && Rewound(bufferToWrite, taken)
          else Filled(bufferToWrite, taken))
      && (phase == Waiting ==> taken == [])
      && Conserved(outs, phase, taken, current, cut, logged)
    }

    constructor (lv: int, base: nat, appenders: nat)
      requires base > 0
      ensures Valid() && level == lv && logged == [] && phase == Waiting
      ensures |outs| == appenders && forall j | 0 <= j < appenders :: outs[j] == []
      ensures fresh(Repr - {this})
    {
      var a := NewBuffer(base);
      var b := NewBuffer(base);
      level := lv;
      currentBuffer, bufferToWrite := a, b;
      outs := seq(appenders, _ => []);
      phase, logged, cut, current, taken, swaps := Waiting, [], [], [], [], 0;
      new;
      ghost var rest := a.Repr + b.Repr + {a, b};
      assert fresh(rest);
      Repr := rest + {this};
    }

    /** A producer's append, under the lock. */
    method LogText(lv: int, text: seq<Byte>)
      requires Valid()
      modifies this`logged, this`current, this`Repr, currentBuffer, currentBuffer.Repr
      ensures Valid() && fresh(Repr - old(Repr))
      ensures logged == old(logged) + (if lv >= level then text else [])
    {
      if lv >= level {
        var _ := currentBuffer.WriteStringWithoutLength(text);
        ConservedLog(outs, phase, taken, current, cut, logged, text);
        logged, current, Repr := logged + text, current + text, Repr + currentBuffer.Repr;
      }
    }

    /** The flush thread's swap, under the lock. */
    method Swap()
      requires Valid() && phase == Waiting
      modifies this`currentBuffer, this`bufferToWrite, this`phase, this`current, this`taken, this`cut, this`swaps
      ensures Valid() && phase == Swapped && taken == old(current) && current == []
      ensures cut == logged && swaps == old(swaps) + 1
      ensures currentBuffer == old(bufferToWrite) && bufferToWrite == old(currentBuffer)
    {
      ConservedSwap(outs, taken, current, cut, logged);
      currentBuffer, bufferToWrite := bufferToWrite, currentBuffer;
      taken, current, phase, cut, swaps := current, [], Swapped, logged, swaps + 1;
    }

    /** Back to the start of the buffer taken out; an empty one is not drained. */
    method Rewind()
      requires Valid() && phase == Swapped
      modifies this`phase, bufferToWrite
      ensures Valid() && phase == if taken == [] then Waiting else Draining(0)
    {
      var _ := bufferToWrite.SetPosition(0);
      phase := if bufferToWrite.size - bufferToWrite.position > 0 then Draining(0) else Waiting;
    }

    /** One appender's turn. The buffer starts on a node boundary, so nothing can fail. */
    method Drain()
      requires Valid() && phase.Draining? && phase.next < |outs|
      modifies this`outs, this`phase
      ensures Valid() && phase == Draining(old(phase.next) + 1) && OutsGrow()
    {
      var r := bufferToWrite.WriteToFile();
      ConservedDrain(outs, phase.next, taken, current, cut, logged);
      outs, phase := outs[phase.next := outs[phase.next] + r.bytes], Draining(phase.next + 1);
    }

    method Clear()
      requires Valid() && phase == Draining(|outs|)
      modifies this`phase, this`taken, bufferToWrite, bufferToWrite.Repr
      ensures Valid() && phase == Waiting
    {
      bufferToWrite.Clear();
      phase, taken := Waiting, [];
    }

    /** What the outputs hold depends on the last swap alone. */
    ghost predicate UpToCut()
      reads this
    {
      cut <= logged && forall j | 0 <= j < |outs| :: outs[j] <= cut && (phase == Waiting ==> outs[j] == cut)
    }

    lemma OutputsFollow()
      requires Valid()
      ensures UpToCut()
    {
      forall j | 0 <= j < |outs| ensures outs[j] <= cut && (phase == Waiting ==> outs[j] == cut) {
        OutputsArePrefixes(outs, phase, taken, current, cut, logged, j);
      }
    }

    /** The last swap is the one there was, or a later one that cut off all logged before. */
    twostate predicate CutOn()
      reads this
    {
      if swaps == old(swaps) then cut == old(cut) else swaps > old(swaps) && old(logged) <= cut
    }

    /** What is out stays out. */
    twostate predicate OutsGrow()
      reads this
    {
      |outs| == |old(outs)| && forall j | 0 <= j < |outs| :: old(outs)[j] <= outs[j]
    }

    /** Whatever the flush thread does next brings it closer to waiting again; from there it
        swaps. */
    method FlushStep()
      requires Valid()
      modifies Repr
      ensures Valid() && fresh(Repr - old(Repr)) && logged == old(logged) && OutsGrow() && CutOn()
      ensures if old(phase) == Waiting then phase == Swapped && cut == logged
              else Turns(phase, |outs|) < Turns(old(phase), |outs|) && cut == old(cut)
    {
      match phase
      case Waiting => Swap();
      case Swapped => Rewind();
      case Draining(i) =>
        if i < |outs| {
          Drain();
        } else {
          Clear();
        }
    }

    ghost predicate AllOut(goal: seq<Byte>)
      reads this
    {
      forall j | 0 <= j < |outs| :: goal <= outs[j]
    }

    /** After `k` more steps of the flush thread, `goal` is in every output. */
    ghost predicate Owed(goal: seq<Byte>, k: nat)
      reads this
    {
      || AllOut(goal)
      || (goal <= cut && phase != Waiting && Turns(phase, |outs|) <= k)
      || (goal <= logged && Turns(phase, |outs|) + |outs| + 3 <= k)
    }

    method Take(step: Step, ghost goal: seq<Byte>, ghost k: nat)
      requires Valid() && Owed(goal, k)
      modifies Repr
      ensures Valid() && fresh(Repr - old(Repr)) && |outs| == |old(outs)| && CutOn()
      ensures logged == old(logged) + TextOf(step, level)
      ensures if step.Log? || k == 0 then Owed(goal, k) else Owed(goal, k - 1)
    {
      if step.Log? {
        LogText(step.level, step.text);
      } else {
        FlushStep();
        OutputsFollow();
      }
    }

    lemma NothingOwed(goal: seq<Byte>)
      requires Valid() && Owed(goal, 0)
      ensures AllOut(goal)
    {
    }

    /** Every run of producers and the flush thread, from any state to any state: the stream is
        whole, and each output is what was logged up to some point, up to the last swap if the
        flush thread is waiting. So once it has swapped and is waiting again, everything
        logged before the run is out, whoever logged in between; and that is so as soon as it
        has taken the steps of what is left of its turn and of one whole turn more. */
    method Run(steps: seq<Step>)
      requires Valid()
      modifies Repr
      ensures Valid() && fresh(Repr - old(Repr)) && |outs| == |old(outs)| && CutOn() && UpToCut()
      ensures logged == old(logged) + Texts(steps, level)
      ensures swaps > old(swaps) && phase == Waiting ==> AllOut(old(logged))
      ensures Flushes(steps) >= Turns(old(phase), |outs|) + |outs| + 3 ==> AllOut(old(logged))
    {
      ghost var (goal, k) := (logged, Turns(phase, |outs|) + |outs| + 3);
      RunTo(steps, goal, k);
      OutputsFollow();
      if Flushes(steps) >= k {
        NothingOwed(goal);
      }
    }

    method RunTo(steps: seq<Step>, ghost goal: seq<Byte>, ghost k: nat)
      requires Valid() && Owed(goal, k)
      modifies Repr
      ensures Valid() && fresh(Repr - old(Repr)) && |outs| == |old(outs)| && CutOn()
      ensures logged == old(logged) + Texts(steps, level)
      ensures Flushes(steps) >= k ==> Owed(goal, 0)
      decreases |steps|
    {
      if steps != [] {
        ghost var (first, rest) := (TextOf(steps[0], level), Texts(steps[1..], level));
        Take(steps[0], goal, k);
        RunTo(steps[1..], goal, if steps[0].Log? || k == 0 then k else k - 1);
        Joined(old(logged), first, rest);
      }
    }

    /** The appenders' turns, with nobody logging. */
    method DrainAll()
      requires Valid() && phase.Draining?
      modifies this`outs, this`phase
      ensures Valid() && phase == Draining(|outs|) && |outs| == |old(outs)|
    {
      while phase.next < |outs|
        invariant Valid() && phase.Draining? && |outs| == |old(outs)|
        decreases |outs| - phase.next
      {
        Drain();
      }
    }

    /** A whole turn of the flush thread with nobody logging: everything is out. */
    method FlushRound()
      requires Valid() && phase == Waiting
      modifies Repr
      ensures Valid() && phase == Waiting && logged == old(logged) && |outs| == |old(outs)|
      ensures forall j | 0 <= j < |outs| :: outs[j] == logged
    {
      SwapAndRewind();
      if phase != Waiting {
        DrainAll();
        Clear();
      }
      OutputsFollow();
    }

    method SwapAndRewind()
      requires Valid() && phase == Waiting
      modifies Repr
      ensures Valid() && Repr == old(Repr) && logged == cut == old(logged) && outs == old(outs)
      ensures phase == Waiting || phase == Draining(0)
    {
      Swap();
      Rewind();
    }
  }
}
