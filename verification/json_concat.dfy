/**
 * `json_concat.py`: reads several JSON files and writes one, either merging
 * their top-level objects into one object (later keys win) or collecting the
 * inputs into one array (optionally splicing in the elements of array inputs).
 *
 * The command line is modelled exactly; the inputs are given as already
 * parsed JSON values, and the result is the value to write together with the
 * indentation `json.dumps` is asked for.
 */
module JsonConcat {
  import opened Wrappers
  import opened Text

  // ---------------------------------------------------------------------------
  // Command line
  // ---------------------------------------------------------------------------

  /** The three settings the options change: `outputToObject`, `flattenArray`, `humanReadable`. */
  datatype Settings = Settings(toObject: bool, flattenArray: bool, humanReadable: bool)

  const Defaults := Settings(true, false, false)

  /** Why the script prints its usage line and exits with -1. */
  datatype UsageError = InvalidOption(arg: string) | TooFewArguments

  /** `arg[0:2] == '--'`. */
  predicate StartsWithDashes(arg: string) {
    |arg| >= 2 && arg[..2] == "--"
  }

  /** The five option names the script knows, in lower case. */
  predicate KnownOption(name: string) {
    name in {"--toarray", "--toobject", "--flattenarray", "--humanreadable", "--optimized"}
  }

  /** The options that choose the output form, and those that choose the layout. */
  predicate ModeOption(name: string) {
    name == "--toarray" || name == "--toobject"
  }

  predicate LayoutOption(name: string) {
    name == "--humanreadable" || name == "--optimized"
  }

  /** One option applied to the settings; `None` for an unknown name. Names compare case-insensitively. */
  function ApplyOption(arg: string, s: Settings): (r: Option<Settings>)
    ensures r.Some? <==> KnownOption(Lower(arg))
    ensures r.Some? && ModeOption(Lower(arg)) ==>
              r.value == s.(toObject := Lower(arg) == "--toobject")
    ensures r.Some? && LayoutOption(Lower(arg)) ==>
              r.value == s.(humanReadable := Lower(arg) == "--humanreadable")
    ensures r.Some? && Lower(arg) == "--flattenarray" ==> r.value == s.(flattenArray := true)
  {
    var name := Lower(arg);
    if name == "--toarray" then Some(s.(toObject := false))
    else if name == "--toobject" then Some(s.(toObject := true))
    else if name == "--flattenarray" then Some(s.(flattenArray := true))
    else if name == "--humanreadable" then Some(s.(humanReadable := true))
    else if name == "--optimized" then Some(s.(humanReadable := false))
    else None
  }

  /** An argument the scanning loop treats as an option: `--` and at least one more character. */
  predicate IsOptionArg(arg: string) {
    StartsWithDashes(arg) && |arg| > 2
  }

  /**
   * The scanning loop: options are removed from the argument list and applied
   * in order; a bare `--` is removed and ends the scan, leaving every later
   * argument positional; anything else stays positional. The first unknown
   * option ends the run with the usage line.
   */
  function Scan(args: seq<string>, s: Settings): (r: Result<(Settings, seq<string>), UsageError>)
    ensures r.Success? ==> |r.value.1| <= |args|
    ensures r.Failure? ==> r.error.InvalidOption? && r.error.arg in args && IsOptionArg(r.error.arg)
                           && !KnownOption(Lower(r.error.arg))
  {
    if |args| == 0 then Success((s, []))
    else
      var arg := args[0];
      if StartsWithDashes(arg) then
        if |arg| > 2 then
          match ApplyOption(arg, s)
          case None => Failure(InvalidOption(arg))
          case Some(s1) => Scan(args[1..], s1)
        else Success((s, args[1..]))
      else
        match Scan(args[1..], s)
        case Failure(e) => Failure(e)
        case Success((s1, rest)) => Success((s1, [arg] + rest))
  }

  /** The arguments before any `--` that are not options, in order. */
  function NonOptions(args: seq<string>): (r: seq<string>)
    ensures forall a :: a in r ==> a in args && !StartsWithDashes(a)
  {
    if |args| == 0 then []
    else if StartsWithDashes(args[0]) then NonOptions(args[1..])
    else [args[0]] + NonOptions(args[1..])
  }

  /** The settings after applying, in order, every known option among `args`. */
  function ApplyAll(args: seq<string>, s: Settings): Settings {
    if |args| == 0 then s
    else
      var next := if IsOptionArg(args[0]) then ApplyOption(args[0], s) else None;
      ApplyAll(args[1..], if next.Some? then next.value else s)
  }

  /** No bare `--` and no unknown option among `args`. */
  predicate PlainArgs(args: seq<string>) {
    forall i :: 0 <= i < |args| ==> args[i] != "--" && (IsOptionArg(args[i]) ==> KnownOption(Lower(args[i])))
  }

  /**
   * Without a terminator every option is removed and applied and the other
   * arguments stay positional, in order; with one, everything after it is
   * positional, even arguments that look like options.
   */
  lemma {:induction false} ScanSplitsAtTerminator(before: seq<string>, after: seq<string>, s: Settings)
    requires PlainArgs(before)
    ensures Scan(before, s) == Success((ApplyAll(before, s), NonOptions(before)))
    ensures Scan(before + ["--"] + after, s) == Success((ApplyAll(before, s), NonOptions(before) + after))
    decreases |before|
  {
    if |before| == 0 {
      assert before + ["--"] + after == ["--"] + after;
      assert (["--"] + after)[1..] == after;
      assert (["--"] + after)[0] == "--" && "--"[..2] == "--";
      assert NonOptions(before) + after == after;
    } else {
      var arg := before[0];
      assert before + ["--"] + after == [arg] + (before[1..] + ["--"] + after);
      assert (before + ["--"] + after)[1..] == before[1..] + ["--"] + after;
      assert PlainArgs(before[1..]) by {
        forall i | 0 <= i < |before[1..]|
          ensures before[1..][i] != "--" && (IsOptionArg(before[1..][i]) ==> KnownOption(Lower(before[1..][i])))
        {
          assert before[1..][i] == before[i + 1];
        }
      }
      if StartsWithDashes(arg) {
        assert arg != "--";
        ScanSplitsAtTerminator(before[1..], after, ApplyOption(arg, s).value);
      } else {
        assert !IsOptionArg(arg);
        assert ApplyAll(before, s) == ApplyAll(before[1..], s);
        assert NonOptions(before) == [arg] + NonOptions(before[1..]);
        ScanSplitsAtTerminator(before[1..], after, s);
        assert Scan(before, s) == Success((ApplyAll(before, s), NonOptions(before)));
        var whole := before + ["--"] + after;
        assert whole[0] == arg;
        assert Scan(whole, s) == Success((ApplyAll(before, s), [arg] + (NonOptions(before[1..]) + after)));
        assert [arg] + (NonOptions(before[1..]) + after) == NonOptions(before) + after;
      }
    }
  }

  /** Among the output-form options the last one decides, whatever its letter case. */
  lemma {:induction false} LastModeOptionWins(args: seq<string>, s: Settings, i: nat)
    requires i < |args| && IsOptionArg(args[i]) && ModeOption(Lower(args[i]))
    requires forall j :: i < j < |args| ==> !(IsOptionArg(args[j]) && ModeOption(Lower(args[j])))
    ensures ApplyAll(args, s).toObject == (Lower(args[i]) == "--toobject")
    decreases |args|
  {
    if i > 0 {
      var next := if IsOptionArg(args[0]) then ApplyOption(args[0], s) else None;
      assert forall j :: i - 1 < j < |args| - 1 ==> args[1..][j] == args[j + 1];
      LastModeOptionWins(args[1..], if next.Some? then next.value else s, i - 1);
    } else {
      var s1 := ApplyOption(args[0], s).value;
      assert forall j :: 0 <= j < |args| - 1 ==> args[1..][j] == args[j + 1];
      OtherOptionsKeepMode(args[1..], s1);
    }
  }

  /** Options other than `--toArray`/`--toObject` leave the output form alone. */
  lemma {:induction false} OtherOptionsKeepMode(args: seq<string>, s: Settings)
    requires forall j :: 0 <= j < |args| ==> !(IsOptionArg(args[j]) && ModeOption(Lower(args[j])))
    ensures ApplyAll(args, s).toObject == s.toObject
    decreases |args|
  {
    if |args| > 0 {
      var next := if IsOptionArg(args[0]) then ApplyOption(args[0], s) else None;
      assert forall j :: 0 <= j < |args| - 1 ==> args[1..][j] == args[j + 1];
      OtherOptionsKeepMode(args[1..], if next.Some? then next.value else s);
    }
  }

  /** Among the layout options the last one decides, whatever its letter case. */
  lemma {:induction false} LastLayoutOptionWins(args: seq<string>, s: Settings, i: nat)
    requires i < |args| && IsOptionArg(args[i]) && LayoutOption(Lower(args[i]))
    requires forall j :: i < j < |args| ==> !(IsOptionArg(args[j]) && LayoutOption(Lower(args[j])))
    ensures ApplyAll(args, s).humanReadable == (Lower(args[i]) == "--humanreadable")
    decreases |args|
  {
    if i > 0 {
      var next := if IsOptionArg(args[0]) then ApplyOption(args[0], s) else None;
      assert forall j :: i - 1 < j < |args| - 1 ==> args[1..][j] == args[j + 1];
      LastLayoutOptionWins(args[1..], if next.Some? then next.value else s, i - 1);
    } else {
      var s1 := ApplyOption(args[0], s).value;
      assert forall j :: 0 <= j < |args| - 1 ==> args[1..][j] == args[j + 1];
      OtherOptionsKeepLayout(args[1..], s1);
    }
  }

  /** Options other than `--humanReadable`/`--optimized` leave the layout alone. */
  lemma {:induction false} OtherOptionsKeepLayout(args: seq<string>, s: Settings)
    requires forall j :: 0 <= j < |args| ==> !(IsOptionArg(args[j]) && LayoutOption(Lower(args[j])))
    ensures ApplyAll(args, s).humanReadable == s.humanReadable
    decreases |args|
  {
    if |args| > 0 {
      var next := if IsOptionArg(args[0]) then ApplyOption(args[0], s) else None;
      assert forall j :: 0 <= j < |args| - 1 ==> args[1..][j] == args[j + 1];
      OtherOptionsKeepLayout(args[1..], if next.Some? then next.value else s);
    }
  }

  /**
   * An unknown option before any `--` ends the run with the usage line: the
   * scan fails, naming that option when no earlier argument is an unknown option.
   */
  lemma {:induction false} UnknownOptionFails(before: seq<string>, arg: string, after: seq<string>, s: Settings)
    requires forall i :: 0 <= i < |before| ==> before[i] != "--"
    requires IsOptionArg(arg) && !KnownOption(Lower(arg))
    ensures Scan(before + [arg] + after, s).Failure?
    ensures PlainArgs(before) ==> Scan(before + [arg] + after, s) == Failure(InvalidOption(arg))
    decreases |before|
  {
    var args := before + [arg] + after;
    if |before| == 0 {
      assert args[0] == arg;
    } else {
      assert args[0] == before[0] && args[1..] == before[1..] + [arg] + after;
      forall t: Settings ensures Scan(args[1..], t).Failure?
                         && (PlainArgs(before[1..]) ==> Scan(args[1..], t) == Failure(InvalidOption(arg))) {
        UnknownOptionFails(before[1..], arg, after, t);
      }
      assert PlainArgs(before) ==> PlainArgs(before[1..]) by {
        if PlainArgs(before) {
          forall i | 0 <= i < |before[1..]| ensures before[1..][i] != "--" && (IsOptionArg(before[1..][i]) ==> KnownOption(Lower(before[1..][i]))) {
            assert before[1..][i] == before[i + 1];
          }
        }
      }
    }
  }

  /** A successful command line: the settings, the output file, and the input files in order. */
  datatype Invocation = Invocation(settings: Settings, output: string, inputs: seq<string>)

  /** The whole command line: the scan, then the check for an output and at least one input. */
  function ParseCommandLine(args: seq<string>): (r: Result<Invocation, UsageError>)
    ensures Scan(args, Defaults).Failure? ==> r == Failure(Scan(args, Defaults).error)
    ensures Scan(args, Defaults).Success? ==>
              var (s, positional) := Scan(args, Defaults).value;
              && (r.Failure? <==> |positional| < 2)
              && (r.Failure? ==> r.error == TooFewArguments)
              && (r.Success? ==> r.value.settings == s && [r.value.output] + r.value.inputs == positional)
  {
    var (s, positional) :- Scan(args, Defaults);
    if |positional| < 2 then Failure(TooFewArguments)
    else Success(Invocation(s, positional[0], positional[1..]))
  }

  // ---------------------------------------------------------------------------
  // Merging
  // ---------------------------------------------------------------------------

  /** A JSON value as `json.load` returns it (numbers kept as their text). */
  datatype Json =
    | JNull
    | JBool(b: bool)
    | JNumber(literal: string)
    | JString(s: string)
    | JArray(items: seq<Json>)
    | JObject(fields: map<string, Json>)

  /** One input file: its name and its parsed content. */
  datatype Input = Input(name: string, content: Json)

  /** Object mode: `data.update(inData)` for every object input, left to right. */
  function MergeObjects(inputs: seq<Input>): (data: map<string, Json>)
    ensures forall k :: k in data <==> exists i :: 0 <= i < |inputs| && inputs[i].content.JObject?
                                                 && k in inputs[i].content.fields
  {
    if |inputs| == 0 then map[]
    else
      var init := MergeObjects(inputs[..|inputs| - 1]);
      var last := inputs[|inputs| - 1].content;
      var data := if last.JObject? then init + last.fields else init;
      assert forall i :: 0 <= i < |inputs| - 1 ==> inputs[..|inputs| - 1][i] == inputs[i];
      data
  }

  /** The names of the inputs object mode skips (with an error message) because they are not objects. */
  function SkippedInputs(inputs: seq<Input>): (names: seq<string>)
    ensures |names| <= |inputs|
    ensures forall i :: 0 <= i < |inputs| && !inputs[i].content.JObject? ==> inputs[i].name in names
  {
    if |inputs| == 0 then []
    else (if inputs[0].content.JObject? then [] else [inputs[0].name]) + SkippedInputs(inputs[1..])
  }

  /** The last input that is an object holding key `k`. */
  predicate LastHolder(inputs: seq<Input>, k: string, i: int) {
    && 0 <= i < |inputs| && inputs[i].content.JObject? && k in inputs[i].content.fields
    && forall j :: i < j < |inputs| ==> !(inputs[j].content.JObject? && k in inputs[j].content.fields)
  }

  /** Later keys override earlier ones: each key has the value of the last object input that has it. */
  lemma {:induction false} MergeTakesLastValue(inputs: seq<Input>, k: string, i: int)
    requires LastHolder(inputs, k, i)
    ensures k in MergeObjects(inputs) && MergeObjects(inputs)[k] == inputs[i].content.fields[k]
    decreases |inputs|
  {
    var n := |inputs|;
    var init := inputs[..n - 1];
    var last := inputs[n - 1].content;
    if i < n - 1 {
      assert LastHolder(init, k, i) by {
        forall j | i < j < n - 1
          ensures !(init[j].content.JObject? && k in init[j].content.fields)
        {
          assert init[j] == inputs[j];
        }
      }
      MergeTakesLastValue(init, k, i);
      assert !(last.JObject? && k in last.fields);
    }
  }

  /** Inputs that are not objects change nothing in object mode. */
  lemma NonObjectIgnored(inputs: seq<Input>, extra: Input)
    requires !extra.content.JObject?
    ensures MergeObjects(inputs + [extra]) == MergeObjects(inputs)
  {
    assert (inputs + [extra])[..|inputs|] == inputs;
  }

  /** What array mode adds for one input: its elements when flattening an array, otherwise the input itself. */
  function Contribution(input: Json, flatten: bool): seq<Json> {
    if flatten && input.JArray? then input.items else [input]
  }

  /** Array mode: `data.append(inData)`, or `data + inData` for an array input with `flattenArray`. */
  function CollectArray(inputs: seq<Input>, flatten: bool): (data: seq<Json>)
    ensures |data| >= (if flatten then 0 else |inputs|)
  {
    if |inputs| == 0 then []
    else
      var init := CollectArray(inputs[..|inputs| - 1], flatten);
      init + Contribution(inputs[|inputs| - 1].content, flatten)
  }

  /** Collecting works input by input: two groups of inputs give their two arrays one after the other. */
  lemma {:induction false} CollectArrayAppend(a: seq<Input>, b: seq<Input>, flatten: bool)
    ensures CollectArray(a + b, flatten) == CollectArray(a, flatten) + CollectArray(b, flatten)
    decreases |b|
  {
    if |b| == 0 {
      assert a + b == a;
    } else {
      var bInit, bLast := b[..|b| - 1], b[|b| - 1];
      var extra := Contribution(bLast.content, flatten);
      assert (a + b)[..|a + b| - 1] == a + bInit && (a + b)[|a + b| - 1] == bLast;
      assert CollectArray(a + b, flatten) == CollectArray(a + bInit, flatten) + extra;
      assert CollectArray(b, flatten) == CollectArray(bInit, flatten) + extra;
      CollectArrayAppend(a, bInit, flatten);
    }
  }

  /** Without `--flattenArray` the array holds exactly the inputs, one element each, in order. */
  lemma {:induction false} UnflattenedArrayIsInputs(inputs: seq<Input>)
    ensures |CollectArray(inputs, false)| == |inputs|
    ensures forall i :: 0 <= i < |inputs| ==> CollectArray(inputs, false)[i] == inputs[i].content
    decreases |inputs|
  {
    if |inputs| > 0 {
      var init := inputs[..|inputs| - 1];
      UnflattenedArrayIsInputs(init);
      assert forall i :: 0 <= i < |init| ==> init[i] == inputs[i];
    }
  }

  /** With `--flattenArray` array inputs are spliced in: two arrays give their elements in order. */
  lemma FlattenSplicesArrays(x: seq<Json>, y: seq<Json>, nx: string, ny: string)
    ensures CollectArray([Input(nx, JArray(x)), Input(ny, JArray(y))], true) == x + y
  {
    var inputs := [Input(nx, JArray(x)), Input(ny, JArray(y))];
    assert inputs[..1] == [Input(nx, JArray(x))];
    assert inputs[..1][..0] == [];
    assert CollectArray(inputs[..1], true) == [] + x;
  }

  /** What is written: the merged value, and `indent=4` for human-readable output (`None` otherwise). */
  datatype Output = Output(path: string, data: Json, indent: Option<nat>)

  /** The script after its command line: merge or collect the inputs and choose the layout. */
  function Concatenate(inv: Invocation, contents: seq<Json>): (r: Output)
    requires |contents| == |inv.inputs|
    ensures r.path == inv.output
    ensures inv.settings.toObject <==> r.data.JObject?
    ensures r.indent.Some? <==> inv.settings.humanReadable
    ensures r.indent.Some? ==> r.indent.value == 4
    ensures !inv.settings.toObject && !inv.settings.flattenArray ==> r.data.JArray? && |r.data.items| == |contents|
  {
    var inputs := seq(|contents|, i requires 0 <= i < |contents| => Input(inv.inputs[i], contents[i]));
    var data :=
      if inv.settings.toObject then JObject(MergeObjects(inputs))
      else JArray(CollectArray(inputs, inv.settings.flattenArray));
    UnflattenedArrayIsInputs(inputs);
    Output(inv.output, data, if inv.settings.humanReadable then Some(4) else None)
  }
}
