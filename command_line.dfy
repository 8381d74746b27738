/** Program.Main: the checks on the command line, in the order the program makes them, and the
    run that follows when they all pass. Int64.TryParse is not modelled; its outcome for each
    argument is the input, None when the text is not a valid 64-bit number. */
module CommandLine {
  import opened Wrappers
  import opened Arithmetic
  import opened PrimeSearch

  /** The values of a C# long. */
  type Int64 = x: int | -0x8000_0000_0000_0000 <= x < 0x8000_0000_0000_0000

  /** The sizes the program is asked for: <bits> and <count>. */
  datatype Config = Config(bits: Int64, count: Int64)

  /** The reason Main prints the usage text and exits; position is the index of the argument. */
  datatype UsageError = IllegalArgumentCount | NotANumber(position: nat) | InvalidBits | InvalidCount

  /** One or two arguments, each a valid 64-bit number. */
  predicate AllParse(parsed: seq<Option<Int64>>) {
    1 <= |parsed| <= 2 && forall i :: 0 <= i < |parsed| ==> parsed[i].Some?
  }

  /** The sizes the arguments ask for, given they all parse: count is 1 when only <bits> is given. */
  function Requested(parsed: seq<Option<Int64>>): Config
    requires AllParse(parsed)
  {
    Config(parsed[0].value, if |parsed| == 1 then 1 else parsed[1].value)
  }

  /** What the generator is built for: whole bytes, at least 32 bits, at least one prime. */
  predicate Usable(c: Config) {
    c.bits >= 32 && c.bits % 8 == 0 && c.count >= 1
  }

  /** Main's validation. C#'s % truncates toward zero, but bits % 8 is only reached when
      bits >= 32, where it agrees with Dafny's. */
  function ParseArguments(parsed: seq<Option<Int64>>): (r: Result<Config, UsageError>)
    ensures r.Success? <==> AllParse(parsed) && Usable(Requested(parsed))
    ensures r.Success? ==> r.value == Requested(parsed)
    ensures r == Failure(IllegalArgumentCount) <==> |parsed| < 1 || |parsed| > 2
    ensures r.Failure? && r.error.NotANumber? ==>
      var k := r.error.position;
      1 <= |parsed| <= 2 && k < |parsed| && parsed[k].None? &&
      forall i :: 0 <= i < k ==> parsed[i].Some?
    ensures r == Failure(InvalidBits) ==>
      AllParse(parsed) && (Requested(parsed).bits < 32 || Requested(parsed).bits % 8 != 0)
    ensures r == Failure(InvalidCount) ==>
      AllParse(parsed) && Requested(parsed).bits >= 32 && Requested(parsed).bits % 8 == 0 &&
      Requested(parsed).count < 1
  {
    if |parsed| < 1 || |parsed| > 2 then Failure(IllegalArgumentCount)
    else if parsed[0].None? then Failure(NotANumber(0))
    else if |parsed| == 2 && parsed[1].None? then Failure(NotANumber(1))
    else
      var c := Requested(parsed);
      if c.bits < 32 || c.bits % 8 != 0 then Failure(InvalidBits)
      else if c.count < 1 then Failure(InvalidCount)
      else Success(c)
  }

  /** An invalid <bits> is reported before an invalid <count>, whatever <count> is. */
  lemma BitsCheckedFirst(bits: Int64, count: Int64)
    requires bits < 32 || bits % 8 != 0
    ensures ParseArguments([Some(bits), Some(count)]) == Failure(InvalidBits)
  {
    assert Requested([Some(bits), Some(count)]).bits == bits;
  }

  /** With <bits> alone the program asks for exactly one prime. */
  lemma CountDefaultsToOne(bits: Int64)
    requires bits >= 32 && bits % 8 == 0
    ensures ParseArguments([Some(bits)]) == Success(Config(bits, 1))
  {
    assert Requested([Some(bits)]) == Config(bits, 1);
  }

  /** From the arguments to the written lines: the usage error, or the output of GeneratePrimes
      on a fresh Program. done reports whether the given passes found count primes. Every value
      written is a candidate of bits / 8 bytes drawn in one of the passes that passed the test,
      and none is written more often than it was drawn; when the passes were not enough, exactly
      those candidates were written. */
  method Launch(parsed: seq<Option<Int64>>, passes: seq<seq<Event>>) returns (r: Result<seq<Line>, UsageError>, done: bool)
    requires ParseArguments(parsed).Success? ==>
      forall k :: 0 <= k < |passes| ==> WellDrawn(ParseArguments(parsed).value.bits, passes[k])
    ensures r.Failure? <==> ParseArguments(parsed).Failure?
    ensures r.Failure? ==> r.error == ParseArguments(parsed).error && !done
    ensures r.Success? ==> var count := ParseArguments(parsed).value.count;
      |r.value| <= count &&
      (forall i :: 0 <= i < |r.value| ==>
        r.value[i].seqNo == i + 1 && (r.value[i].separated <==> i + 1 < count)) &&
      (done <==> |r.value| == count)
    ensures r.Success? ==> var bits := ParseArguments(parsed).value.bits;
      forall i :: 0 <= i < |r.value| ==> 2 <= r.value[i].value < Pow(2, bits - 1)
    ensures r.Success? ==> multiset(Values(r.value)) <= AllPassingValues(passes)
    ensures r.Success? && !done ==> multiset(Values(r.value)) == AllPassingValues(passes)
  {
    var config := ParseArguments(parsed);
    if config.Failure? {
      return Failure(config.error), false;
    }
    var program := new Generator(config.value.bits, config.value.count);
    done := program.GeneratePrimes(passes);
    program.OutputShape();
    assert program.output[0..] == program.output;
    r := Success(program.output);
  }
}
