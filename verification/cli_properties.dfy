/**
  What the lookup loop promises: which inputs let it run to the end, the
  return code it ends with, the writes it makes, and where it stops.
 */
module CliProperties {
  import opened Wrappers
  import opened Resolver
  import opened Cli

  /** The lookup answers. */
  predicate Hit(mapping: CounterpartMapping, cwd: string, known: string)
  {
    Lookup(mapping, cwd, known).Ok?
  }

  /** The loop carries on after this input: a hit, or a KeyError that the else-action absorbs. */
  predicate Survives(mapping: CounterpartMapping, cwd: string, options: Options, known: string)
  {
    var looked := Lookup(mapping, cwd, known);
    looked.Ok? || (looked.error.KeyError? && options.elseAction != Exception)
  }

  /** The return code a miss leaves behind: 1 under silent, whatever --else-errno says; else --else-errno. */
  function MissRc(options: Options): int
  {
    if options.elseAction == Silent then 1 else options.elseErrno
  }

  /** What one surviving input writes when the else-action is not silent. */
  function Reply(mapping: CounterpartMapping, cwd: string, options: Options, known: string): Write
  {
    match Lookup(mapping, cwd, known)
    case Ok(counterpart) => Write(Stdout, counterpart + Newline(options))
    case Err(_) =>
      if options.elseAction == Passthrough then Write(Stdout, known + Newline(options))
      else Write(Stderr, "# " + MissMessage + known + Newline(options))
  }

  lemma StepOutcome(mapping: CounterpartMapping, cwd: string, options: Options, known: string, rc: int)
    ensures Step(mapping, cwd, options, known, rc).Ok? <==> Survives(mapping, cwd, options, known)
    ensures Step(mapping, cwd, options, known, rc).Ok? ==>
      Step(mapping, cwd, options, known, rc).value.0 == (if Hit(mapping, cwd, known) then rc else MissRc(options))
  {
  }

  /** The loop runs to the end exactly when every input survives. */
  lemma {:induction false} RunCompletesIff(mapping: CounterpartMapping, cwd: string, options: Options, inputs: seq<string>)
    ensures Run(mapping, cwd, options, inputs).raised == None <==>
      forall i :: 0 <= i < |inputs| ==> Survives(mapping, cwd, options, inputs[i])
    decreases |inputs|
  {
    if inputs != [] {
      var front := inputs[..|inputs| - 1];
      RunCompletesIff(mapping, cwd, options, front);
      StepOutcome(mapping, cwd, options, inputs[|inputs| - 1], Run(mapping, cwd, options, front).rc);
      assert forall i :: 0 <= i < |front| ==> front[i] == inputs[i];
    }
  }

  /** The last iteration of a complete run: the rest completed and the last step set the return code. */
  lemma RunLast(mapping: CounterpartMapping, cwd: string, options: Options, inputs: seq<string>)
    requires inputs != [] && Run(mapping, cwd, options, inputs).raised == None
    ensures var prev := Run(mapping, cwd, options, inputs[..|inputs| - 1]);
      && prev.raised == None
      && Step(mapping, cwd, options, inputs[|inputs| - 1], prev.rc).Ok?
      && Run(mapping, cwd, options, inputs).rc == Step(mapping, cwd, options, inputs[|inputs| - 1], prev.rc).value.0
      && Run(mapping, cwd, options, inputs).writes == prev.writes + Step(mapping, cwd, options, inputs[|inputs| - 1], prev.rc).value.1
  {
  }

  /**
    After a complete run the return code is 0 when every input had a
    counterpart, and the miss return code otherwise: hits never change it,
    every miss overwrites it with the same value.
   */
  lemma {:induction false} RunRc(mapping: CounterpartMapping, cwd: string, options: Options, inputs: seq<string>)
    requires Run(mapping, cwd, options, inputs).raised == None
    ensures Run(mapping, cwd, options, inputs).rc ==
      if forall i :: 0 <= i < |inputs| ==> Hit(mapping, cwd, inputs[i]) then 0 else MissRc(options)
    decreases |inputs|
  {
    if inputs != [] {
      var front := inputs[..|inputs| - 1];
      var last := inputs[|inputs| - 1];
      RunLast(mapping, cwd, options, inputs);
      RunRc(mapping, cwd, options, front);
      StepOutcome(mapping, cwd, options, last, Run(mapping, cwd, options, front).rc);
      assert front + [last] == inputs;
      AllHitSnoc(mapping, cwd, front, last);
    }
  }

  /** Every input of a longer list hits exactly when every earlier one does and the last one does. */
  lemma AllHitSnoc(mapping: CounterpartMapping, cwd: string, front: seq<string>, last: string)
    ensures (forall i :: 0 <= i < |front + [last]| ==> Hit(mapping, cwd, (front + [last])[i])) <==>
      (forall i :: 0 <= i < |front| ==> Hit(mapping, cwd, front[i])) && Hit(mapping, cwd, last)
  {
    if forall i :: 0 <= i < |front + [last]| ==> Hit(mapping, cwd, (front + [last])[i]) {
      assert forall i :: 0 <= i < |front| ==> (front + [last])[i] == front[i];
      assert (front + [last])[|front|] == last;
    }
  }

  /** The return code is 0 exactly when nothing missed, as long as a miss has a non-zero code. */
  lemma RcZeroIffAllHit(mapping: CounterpartMapping, cwd: string, options: Options, inputs: seq<string>)
    requires Run(mapping, cwd, options, inputs).raised == None
    requires MissRc(options) != 0
    ensures Run(mapping, cwd, options, inputs).rc == 0 <==>
      forall i :: 0 <= i < |inputs| ==> Hit(mapping, cwd, inputs[i])
  {
    RunRc(mapping, cwd, options, inputs);
  }

  /**
    Unless the else-action is silent, a complete run writes one line per
    input, in input order: the counterpart, the input itself under
    passthrough, or an error message on stderr.
   */
  lemma RunWrites(mapping: CounterpartMapping, cwd: string, options: Options, inputs: seq<string>)
    requires Run(mapping, cwd, options, inputs).raised == None
    requires options.elseAction != Silent
    ensures |Run(mapping, cwd, options, inputs).writes| == |inputs|
    ensures forall i :: 0 <= i < |inputs| ==>
      Run(mapping, cwd, options, inputs).writes[i] == Reply(mapping, cwd, options, inputs[i])
  {
    RunWritesAreReplies(mapping, cwd, options, inputs);
  }

  /** The replies to each input, in input order. */
  function Replies(mapping: CounterpartMapping, cwd: string, options: Options, inputs: seq<string>): seq<Write>
  {
    seq(|inputs|, i requires 0 <= i < |inputs| => Reply(mapping, cwd, options, inputs[i]))
  }

  lemma RepliesSnoc(mapping: CounterpartMapping, cwd: string, options: Options, front: seq<string>, last: string)
    ensures Replies(mapping, cwd, options, front + [last]) == Replies(mapping, cwd, options, front) + [Reply(mapping, cwd, options, last)]
  {
  }

  /** The induction behind RunWrites, one input at a time from the end. */
  lemma {:induction false} RunWritesAreReplies(mapping: CounterpartMapping, cwd: string, options: Options, inputs: seq<string>)
    requires Run(mapping, cwd, options, inputs).raised == None
    requires options.elseAction != Silent
    ensures Run(mapping, cwd, options, inputs).writes == Replies(mapping, cwd, options, inputs)
    decreases |inputs|
  {
    if inputs != [] {
      var front := inputs[..|inputs| - 1];
      var last := inputs[|inputs| - 1];
      RunLastReply(mapping, cwd, options, inputs);
      RunWritesAreReplies(mapping, cwd, options, front);
      assert front + [last] == inputs;
      RepliesSnoc(mapping, cwd, options, front, last);
    }
  }

  /** Unless silent, the last input of a complete run adds exactly its reply to what the others wrote. */
  lemma RunLastReply(mapping: CounterpartMapping, cwd: string, options: Options, inputs: seq<string>)
    requires inputs != [] && Run(mapping, cwd, options, inputs).raised == None
    requires options.elseAction != Silent
    ensures var prev := Run(mapping, cwd, options, inputs[..|inputs| - 1]);
      && prev.raised == None
      && Run(mapping, cwd, options, inputs).writes == prev.writes + [Reply(mapping, cwd, options, inputs[|inputs| - 1])]
  {
    var prev := Run(mapping, cwd, options, inputs[..|inputs| - 1]);
    RunLast(mapping, cwd, options, inputs);
    StepOutcome(mapping, cwd, options, inputs[|inputs| - 1], prev.rc);
    StepWrites(mapping, cwd, options, inputs[|inputs| - 1], prev.rc);
  }

  lemma StepWrites(mapping: CounterpartMapping, cwd: string, options: Options, known: string, rc: int)
    requires Survives(mapping, cwd, options, known)
    requires options.elseAction != Silent
    ensures Step(mapping, cwd, options, known, rc).Ok?
    ensures Step(mapping, cwd, options, known, rc).value.1 == [Reply(mapping, cwd, options, known)]
  {
  }

  /** The counterparts of the inputs that have one, each echoed to stdout, in input order. */
  function HitWrites(mapping: CounterpartMapping, cwd: string, options: Options, inputs: seq<string>): seq<Write>
    decreases |inputs|
  {
    if inputs == [] then []
    else
      var looked := Lookup(mapping, cwd, inputs[0]);
      (if looked.Ok? then [Write(Stdout, looked.value + Newline(options))] else [])
      + HitWrites(mapping, cwd, options, inputs[1..])
  }

  /** At most one write per input, all to stdout, and none when every input missed. */
  lemma {:induction false} HitWritesShape(mapping: CounterpartMapping, cwd: string, options: Options, inputs: seq<string>)
    ensures |HitWrites(mapping, cwd, options, inputs)| <= |inputs|
    ensures forall w | w in HitWrites(mapping, cwd, options, inputs) :: w.stream == Stdout
    ensures (forall i :: 0 <= i < |inputs| ==> !Hit(mapping, cwd, inputs[i])) ==> HitWrites(mapping, cwd, options, inputs) == []
    decreases |inputs|
  {
    if inputs != [] {
      HitWritesShape(mapping, cwd, options, inputs[1..]);
      assert forall i :: 0 <= i < |inputs[1..]| ==> inputs[1..][i] == inputs[i + 1];
    }
  }

  lemma {:induction false} HitWritesAppend(mapping: CounterpartMapping, cwd: string, options: Options, front: seq<string>, last: string)
    ensures HitWrites(mapping, cwd, options, front + [last]) ==
      HitWrites(mapping, cwd, options, front) + HitWrites(mapping, cwd, options, [last])
    decreases |front|
  {
    if front == [] {
      assert front + [last] == [last];
    } else {
      assert (front + [last])[0] == front[0] && (front + [last])[1..] == front[1..] + [last];
      HitWritesAppend(mapping, cwd, options, front[1..], last);
    }
  }

  /**
    Under silent a complete run writes exactly the counterparts of the
    inputs that have one, each to stdout with the newline unless
    --no-newline, in input order, and nothing for the others.
   */
  lemma SilentWritesOnlyHits(mapping: CounterpartMapping, cwd: string, options: Options, inputs: seq<string>)
    requires Run(mapping, cwd, options, inputs).raised == None
    requires options.elseAction == Silent
    ensures Run(mapping, cwd, options, inputs).writes == HitWrites(mapping, cwd, options, inputs)
    ensures |Run(mapping, cwd, options, inputs).writes| <= |inputs|
    ensures forall w | w in Run(mapping, cwd, options, inputs).writes :: w.stream == Stdout
    ensures (forall i :: 0 <= i < |inputs| ==> !Hit(mapping, cwd, inputs[i])) ==> Run(mapping, cwd, options, inputs).writes == []
  {
    SilentWritesAreHits(mapping, cwd, options, inputs);
    HitWritesShape(mapping, cwd, options, inputs);
  }

  /** The induction behind SilentWritesOnlyHits, one input at a time from the end. */
  lemma {:induction false} SilentWritesAreHits(mapping: CounterpartMapping, cwd: string, options: Options, inputs: seq<string>)
    requires Run(mapping, cwd, options, inputs).raised == None
    requires options.elseAction == Silent
    ensures Run(mapping, cwd, options, inputs).writes == HitWrites(mapping, cwd, options, inputs)
    decreases |inputs|
  {
    if inputs != [] {
      var front := inputs[..|inputs| - 1];
      var last := inputs[|inputs| - 1];
      SilentStep(mapping, cwd, options, inputs);
      SilentWritesAreHits(mapping, cwd, options, front);
      assert front + [last] == inputs;
      HitWritesAppend(mapping, cwd, options, front, last);
    }
  }

  /** Under silent, the last input adds its own hit write, if any, to what the others wrote. */
  lemma SilentStep(mapping: CounterpartMapping, cwd: string, options: Options, inputs: seq<string>)
    requires inputs != [] && Run(mapping, cwd, options, inputs).raised == None
    requires options.elseAction == Silent
    ensures var front := inputs[..|inputs| - 1];
      && Run(mapping, cwd, options, front).raised == None
      && Run(mapping, cwd, options, inputs).writes ==
         Run(mapping, cwd, options, front).writes + HitWrites(mapping, cwd, options, [inputs[|inputs| - 1]])
  {
    assert [inputs[|inputs| - 1]][1..] == [];
  }

  /**
    An exception ends the loop at the first input that does not survive:
    the loop's code and writes are those of the inputs before it, and the
    exception is the KeyError of the exception action or the lookup's own.
   */
  lemma {:induction false} RunStopsAtFirstFailure(mapping: CounterpartMapping, cwd: string, options: Options, inputs: seq<string>)
    requires Run(mapping, cwd, options, inputs).raised.Some?
    ensures exists k :: 0 <= k < |inputs| && StopsAt(mapping, cwd, options, inputs, k)
    decreases |inputs|
  {
    var front := inputs[..|inputs| - 1];
    var last := inputs[|inputs| - 1];
    var prev := Run(mapping, cwd, options, front);
    if prev.raised.Some? {
      RunStopsAtFirstFailure(mapping, cwd, options, front);
      var k :| 0 <= k < |front| && StopsAt(mapping, cwd, options, front, k);
      StopsAtEarlier(mapping, cwd, options, inputs, k);
    } else {
      StopsAtLast(mapping, cwd, options, inputs);
    }
  }

  /** Where the loop over all inputs but the last stopped, the loop over all of them stopped too. */
  lemma StopsAtEarlier(mapping: CounterpartMapping, cwd: string, options: Options, inputs: seq<string>, k: nat)
    requires k < |inputs| - 1
    requires StopsAt(mapping, cwd, options, inputs[..|inputs| - 1], k)
    requires Run(mapping, cwd, options, inputs[..|inputs| - 1]).raised.Some?
    ensures StopsAt(mapping, cwd, options, inputs, k)
  {
    var front := inputs[..|inputs| - 1];
    assert front[..k] == inputs[..k];
    assert forall j :: 0 <= j <= k ==> front[j] == inputs[j];
  }

  /** A loop that ran through all inputs but the last stops at the last one. */
  lemma StopsAtLast(mapping: CounterpartMapping, cwd: string, options: Options, inputs: seq<string>)
    requires inputs != [] && Run(mapping, cwd, options, inputs[..|inputs| - 1]).raised == None
    requires Run(mapping, cwd, options, inputs).raised.Some?
    ensures StopsAt(mapping, cwd, options, inputs, |inputs| - 1)
  {
    var k := |inputs| - 1;
    var front := inputs[..k];
    var last := inputs[k];
    var prev := Run(mapping, cwd, options, front);
    RunCompletesIff(mapping, cwd, options, front);
    StepOutcome(mapping, cwd, options, last, prev.rc);
    StepRaised(mapping, cwd, options, last, prev.rc);
    assert forall j :: 0 <= j < k ==> inputs[j] == front[j];
  }

  /** The exception a failing input raises: the KeyError of the exception action, or the lookup's own. */
  lemma StepRaised(mapping: CounterpartMapping, cwd: string, options: Options, known: string, rc: int)
    requires !Survives(mapping, cwd, options, known)
    ensures var looked := Lookup(mapping, cwd, known);
      Step(mapping, cwd, options, known, rc) == Err(
        if looked.Err? && looked.error.KeyError? then MissRaised(MissMessage + known)
        else LookupRaised(looked.error))
  {
  }

  predicate StopsAt(mapping: CounterpartMapping, cwd: string, options: Options, inputs: seq<string>, k: nat)
    requires k < |inputs|
  {
    var before := Run(mapping, cwd, options, inputs[..k]);
    var looked := Lookup(mapping, cwd, inputs[k]);
    && (forall j :: 0 <= j < k ==> Survives(mapping, cwd, options, inputs[j]))
    && !Survives(mapping, cwd, options, inputs[k])
    && Run(mapping, cwd, options, inputs) == RunResult(before.rc, before.writes, Some(
         if looked.Err? && looked.error.KeyError? then MissRaised(MissMessage + inputs[k])
         else LookupRaised(looked.error)))
  }
}
