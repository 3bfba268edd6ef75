/**
  The command's lookup loop: every input string is looked up in one
  mapping; a hit echoes the counterpart, a miss is handled as the
  --else-action option says, and the process return code records whether
  any lookup missed.  Output is a list of writes to stdout or stderr.
 */
module Cli {
  import opened Wrappers
  import opened Resolver
  import opened Loader
  import LoaderImpl

  /** `--else-action`. */
  datatype ElseAction = Passthrough | Silent | Error | Exception

  /** The parsed command-line options the loop consults. */
  datatype Options = Options(elseAction: ElseAction, elseErrno: int, noNewline: bool)

  datatype Stream = Stdout | Stderr
  datatype Write = Write(stream: Stream, text: string)

  /** The exceptions that escape the command. */
  datatype CliError =
    | LoadRaised(loadError: LoadError)       // from loading the configuration
    | LookupRaised(lookupError: LookupError) // a lookup error other than KeyError
    | MissRaised(message: string)            // the KeyError raised by the "exception" action
    | UnboundLocal                           // no_counterpart_found called under "silent"

  const MissMessage: string := "No counterpart found for: "

  function Newline(options: Options): string
  {
    if options.noNewline then "" else "\n"
  }

  /** `counterpart_found`: echo the counterpart; the return code is `rc_so_far or 0`. */
  function CounterpartFound(counterpart: string, options: Options, rcSoFar: int): (r: (int, Write))
    ensures r.0 == rcSoFar
    ensures r.1.stream == Stdout && counterpart <= r.1.text
    ensures |r.1.text| == |counterpart| + |Newline(options)|
  {
    (if rcSoFar != 0 then rcSoFar else 0, Write(Stdout, counterpart + Newline(options)))
  }

  /**
    `no_counterpart_found`: passthrough echoes the string to stdout, error
    reports it on stderr, both answering `else_errno`; exception raises.
    Under silent no output stream is chosen and the write fails.
   */
  function NoCounterpartFound(known: string, options: Options): (r: Result<(int, Write), CliError>)
    ensures r.Ok? <==> options.elseAction == Passthrough || options.elseAction == Error
    ensures r.Ok? ==> r.value.0 == options.elseErrno
    ensures r.Ok? && options.elseAction == Passthrough ==>
      r.value.1.stream == Stdout && known <= r.value.1.text
    ensures r.Ok? && options.elseAction == Error ==>
      r.value.1.stream == Stderr && "# " + MissMessage + known <= r.value.1.text
    ensures r.Err? && options.elseAction == Exception ==> r.error == MissRaised(MissMessage + known)
  {
    match options.elseAction
    case Passthrough => Ok((options.elseErrno, Write(Stdout, known + Newline(options))))
    case Exception => Err(MissRaised(MissMessage + known))
    case Error => Ok((options.elseErrno, Write(Stderr, "# " + MissMessage + known + Newline(options))))
    case Silent => Err(UnboundLocal)
  }

  /** What follows the counterpart, the echoed string or the message is exactly the newline, unless --no-newline. */
  lemma WritesEndWithNewline(counterpart: string, known: string, options: Options, rcSoFar: int)
    ensures CounterpartFound(counterpart, options, rcSoFar).1.text[|counterpart|..] == Newline(options)
    ensures var r := NoCounterpartFound(known, options);
      r.Ok? && options.elseAction == Passthrough ==> r.value.1.text[|known|..] == Newline(options)
    ensures var r := NoCounterpartFound(known, options);
      var message := "# " + MissMessage + known;
      r.Ok? && options.elseAction == Error ==> r.value.1.text[|message|..] == Newline(options)
  {
  }

  /** One iteration of the loop: the new return code and the writes, or the exception that ends the loop. */
  function Step(mapping: CounterpartMapping, cwd: string, options: Options, known: string, rcSoFar: int): Result<(int, seq<Write>), CliError>
  {
    match Lookup(mapping, cwd, known)
    case Ok(counterpart) =>
      var found := CounterpartFound(counterpart, options, rcSoFar);
      Ok((found.0, [found.1]))
    case Err(KeyError(_)) =>
      if options.elseAction == Silent then Ok((1, []))
      else (
        match NoCounterpartFound(known, options)
        case Ok(missed) => Ok((missed.0, [missed.1]))
        case Err(e) => Err(e))
    case Err(e) => Err(LookupRaised(e))
  }

  /** The state of the loop after some of the inputs. */
  datatype RunResult = RunResult(rc: int, writes: seq<Write>, raised: Option<CliError>)

  /** The loop over `inputs`, starting from return code 0. */
  function Run(mapping: CounterpartMapping, cwd: string, options: Options, inputs: seq<string>): RunResult
    decreases |inputs|
  {
    if inputs == [] then RunResult(0, [], None)
    else
      var prev := Run(mapping, cwd, options, inputs[..|inputs| - 1]);
      if prev.raised.Some? then prev
      else match Step(mapping, cwd, options, inputs[|inputs| - 1], prev.rc)
        case Err(e) => RunResult(prev.rc, prev.writes, Some(e))
        case Ok(next) => RunResult(next.0, prev.writes + next.1, None)
  }

  /** Once an exception has ended the loop, later inputs change nothing. */
  lemma {:induction false} RunStaysRaised(mapping: CounterpartMapping, cwd: string, options: Options, inputs: seq<string>, k: nat)
    requires k <= |inputs|
    requires Run(mapping, cwd, options, inputs[..k]).raised.Some?
    ensures Run(mapping, cwd, options, inputs) == Run(mapping, cwd, options, inputs[..k])
    decreases |inputs| - k
  {
    if k == |inputs| {
      assert inputs[..k] == inputs;
    } else {
      var shorter := inputs[..|inputs| - 1];
      assert shorter[..k] == inputs[..k];
      RunStaysRaised(mapping, cwd, options, shorter, k);
    }
  }

  /** The command: load the mapping (the home file is not skipped), then run the loop. */
  function Command(env: Env, configFile: Option<string>, options: Options, inputs: seq<string>, fuel: nat): RunResult
  {
    match Loader.GetCounterpartMapping(env, configFile, false, fuel)
    case Err(e) => RunResult(0, [], Some(LoadRaised(e)))
    case Ok(mapping) => Run(mapping, env.cwd, options, inputs)
  }

  /** The loop of `main`. */
  method LookupAll(mapping: CounterpartMapping, cwd: string, options: Options, inputs: seq<string>)
    returns (rc: int, writes: seq<Write>, raised: Option<CliError>)
    ensures RunResult(rc, writes, raised) == Run(mapping, cwd, options, inputs)
  {
    rc := 0;
    writes := [];
    raised := None;
    var i := 0;
    while i < |inputs|
      invariant 0 <= i <= |inputs|
      invariant RunResult(rc, writes, None) == Run(mapping, cwd, options, inputs[..i])
    {
      var p := inputs[i];
      assert inputs[..i + 1][..i] == inputs[..i];
      var looked := Lookup(mapping, cwd, p);
      if looked.Ok? {
        var found := CounterpartFound(looked.value, options, rc);
        rc := found.0;
        writes := writes + [found.1];
      } else if looked.error.KeyError? {
        if options.elseAction == Silent {
          rc := 1;
        } else {
          var missed := NoCounterpartFound(p, options);
          if missed.Err? {
            raised := Some(missed.error);
            RunStaysRaised(mapping, cwd, options, inputs, i + 1);
            return;
          }
          rc := missed.value.0;
          writes := writes + [missed.value.1];
        }
      } else {
        raised := Some(LookupRaised(looked.error));
        RunStaysRaised(mapping, cwd, options, inputs, i + 1);
        return;
      }
      i := i + 1;
    }
    assert inputs[..|inputs|] == inputs;
  }

  /** `main` after option parsing: load, then look every input up. */
  method RunCommand(env: Env, configFile: Option<string>, options: Options, inputs: seq<string>, fuel: nat)
    returns (rc: int, writes: seq<Write>, raised: Option<CliError>)
    ensures RunResult(rc, writes, raised) == Command(env, configFile, options, inputs, fuel)
  {
    var mapping := LoaderImpl.GetCounterpartMapping(env, configFile, false, fuel);
    if mapping.Err? {
      return 0, [], Some(LoadRaised(mapping.error));
    }
    rc, writes, raised := LookupAll(mapping.value, env.cwd, options, inputs);
  }
}
