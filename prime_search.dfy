/** Program.GeneratePrimes and Program.OutputNumber: how primes found by racing workers are
    numbered and written. The lock region is one atomic step; the unlocked check before it is
    another, so any number of workers can pass the check before the first of them takes the lock. */
module PrimeSearch {
  import opened Wrappers
  import opened Arithmetic
  import opened NumberTheory
  import opened BigIntegerBytes
  import opened MillerRabin

  /** A line the program writes for a prime: "<seqNo>: <value>", and an empty line after it when
      separated holds. */
  datatype Line = Line(seqNo: int, value: int, separated: bool)

  /** OutputNumber(bi, temp) in a run asked for count primes: the line written, if any. */
  function OutputNumber(count: int, bi: int, temp: int): (r: Option<Line>)
    ensures r.Some? <==> temp <= count
    ensures r.Some? ==> r.value.seqNo == temp && r.value.value == bi
    ensures r.Some? ==> (r.value.separated <==> r.value.seqNo < count)
  {
    if temp <= count then Some(Line(temp, bi, temp != count)) else None
  }

  /** The console output after the primes in reserved have taken the lock in that order: the n-th
      of them is handed to OutputNumber with temp == n. */
  function Log(reserved: seq<int>, count: int): seq<Line> {
    if reserved == [] then []
    else
      var n := |reserved|;
      Log(reserved[..n - 1], count) +
      match OutputNumber(count, reserved[n - 1], n)
      case Some(line) => [line]
      case None => []
  }

  /** The output numbers the first min(|reserved|, count) primes 1, 2, 3, ... in the order they
      took the lock, with an empty line after each one except the count-th. */
  lemma {:induction false} LogShape(reserved: seq<int>, count: int)
    requires count >= 0
    ensures |Log(reserved, count)| == if |reserved| <= count then |reserved| else count
    ensures forall i :: 0 <= i < |Log(reserved, count)| ==>
      Log(reserved, count)[i] == Line(i + 1, reserved[i], i + 1 < count)
  {
    if reserved != [] {
      var n := |reserved|;
      var prefix := reserved[..n - 1];
      LogShape(prefix, count);
      assert forall i :: 0 <= i < |prefix| ==> prefix[i] == reserved[i];
    }
  }

  /** One more reservation adds the line OutputNumber writes for it, or nothing past count. */
  lemma LogExtend(reserved: seq<int>, v: int, count: int)
    ensures var n := |reserved| + 1;
      Log(reserved + [v], count) ==
        Log(reserved, count) + if n <= count then [Line(n, v, n < count)] else []
  {
    assert (reserved + [v])[..|reserved|] == reserved;
  }

  /** The output only grows: what is written stays written. */
  lemma {:induction false} LogPrefix(reserved: seq<int>, more: seq<int>, count: int)
    ensures Log(reserved, count) <= Log(reserved + more, count)
    decreases |more|
  {
    if more != [] {
      var init, last := more[..|more| - 1], more[|more| - 1];
      assert reserved + more == (reserved + init) + [last];
      LogPrefix(reserved, init, count);
      LogExtend(reserved + init, last, count);
    } else {
      assert reserved + more == reserved;
    }
  }

  /** Once at least count primes have taken the lock the output is complete: exactly count lines
      numbered 1..count, an empty line after all but the last, however far currentCount went. */
  lemma CompleteRun(reserved: seq<int>, count: int)
    requires count >= 1 && |reserved| >= count
    ensures |Log(reserved, count)| == count
    ensures forall i :: 0 <= i < count ==> Log(reserved, count)[i].seqNo == i + 1
    ensures forall i :: 0 <= i < count - 1 ==> Log(reserved, count)[i].separated
    ensures !Log(reserved, count)[count - 1].separated
  {
    LogShape(reserved, count);
  }

  /** The sequence numbers written are strictly increasing and never above count. */
  lemma NumbersIncrease(reserved: seq<int>, count: int, i: int, j: int)
    requires count >= 0 && 0 <= i < j < |Log(reserved, count)|
    ensures Log(reserved, count)[i].seqNo < Log(reserved, count)[j].seqNo <= count
  {
    LogShape(reserved, count);
  }

  /** One step of the parallel search: a new loop iteration draws a candidate and its bases, or a
      worker waiting for the lock takes it. */
  datatype Event = Draw(bytes: seq<Byte>, bases: seq<int>) | Enter(worker: nat)

  /** s without its element at index i: the others keep their order. */
  function RemoveAt<T>(s: seq<T>, i: nat): (r: seq<T>)
    requires i < |s|
    ensures |r| == |s| - 1
    ensures forall j :: 0 <= j < |r| ==> r[j] == s[if j < i then j else j + 1]
    ensures multiset(r) + multiset{s[i]} == multiset(s)
  {
    assert s == s[..i] + [s[i]] + s[i + 1..];
    s[..i] + s[i + 1..]
  }

  /** Every candidate is drawn from bits / 8 bytes with bases the redraw loop accepts. */
  ghost predicate WellDrawn(bits: int, events: seq<Event>) {
    forall i :: 0 <= i < |events| && events[i].Draw? ==>
      |events[i].bytes| == bits / 8 &&
      (FromBytes(events[i].bytes) <= 4 ||
       DrawnBases(FromBytes(events[i].bytes), DefaultWitnesses, events[i].bases))
  }

  /** The event draws a candidate that passes the test with its bases. */
  ghost predicate Passes(e: Event) {
    e.Draw? && PassesTest(FromBytes(e.bytes), e.bases)
  }

  /** The values of the candidates in events that pass the test, each as often as it is drawn. */
  ghost function PassingValues(events: seq<Event>): multiset<int> {
    if events == [] then multiset{}
    else
      var e := events[|events| - 1];
      PassingValues(events[..|events| - 1]) + if Passes(e) then multiset{FromBytes(e.bytes)} else multiset{}
  }

  /** The values of the candidates that pass the test over all the passes. */
  ghost function AllPassingValues(passes: seq<seq<Event>>): multiset<int> {
    if passes == [] then multiset{}
    else AllPassingValues(passes[..|passes| - 1]) + PassingValues(passes[|passes| - 1])
  }

  /** The values shown by lines, in order. */
  function Values(lines: seq<Line>): (vs: seq<int>)
    ensures |vs| == |lines| && forall i :: 0 <= i < |lines| ==> vs[i] == lines[i].value
  {
    seq(|lines|, i requires 0 <= i < |lines| => lines[i].value)
  }

  /** The state of one run of the program: the fields count, currentCount and bits, the workers
      that passed the unlocked check and wait for the lock, and what has been written. The ghost
      fields record the primes that took the lock, in order, and the bases each value passed
      the test with. */
  class Generator {
    const bits: int
    const count: int
    var currentCount: int
    var waiting: seq<int>
    var output: seq<Line>
    ghost var reserved: seq<int>
    ghost var waitingBases: seq<seq<int>>
    ghost var reservedBases: seq<seq<int>>

    ghost predicate Valid()
      reads this
    {
      bits >= 32 && bits % 8 == 0 && count >= 1 &&
      currentCount == |reserved| &&
      output == Log(reserved, count) &&
      |waitingBases| == |waiting| && |reservedBases| == |reserved| &&
      (forall i :: 0 <= i < |waiting| ==> 2 <= waiting[i] < Pow(2, bits - 1)) &&
      (forall i :: 0 <= i < |reserved| ==> 2 <= reserved[i] < Pow(2, bits - 1)) &&
      (forall i :: 0 <= i < |waiting| ==> PassesTest(waiting[i], waitingBases[i])) &&
      (forall i :: 0 <= i < |reserved| ==> PassesTest(reserved[i], reservedBases[i]))
    }

    /** new Program(bits, count): nothing found and nothing written yet. */
    constructor (bits: int, count: int)
      requires bits >= 32 && bits % 8 == 0 && count >= 1
      ensures Valid() && this.bits == bits && this.count == count
      ensures currentCount == 0 && waiting == [] && output == [] && reserved == []
    {
      this.bits := bits;
      this.count := count;
      currentCount := 0;
      waiting := [];
      output := [];
      reserved := [];
      waitingBases := [];
      reservedBases := [];
    }

    /** One iteration of the Parallel.For body up to the lock: decode the drawn bytes, test the
        candidate, and, if it is probably prime, check currentCount without the lock. A worker that
        passes the check joins the workers waiting for the lock; one that fails it asks the loop
        to stop. */
    method Attempt(bytes: seq<Byte>, bases: seq<int>) returns (admitted: bool, stop: bool)
      requires Valid() && |bytes| == bits / 8
      requires FromBytes(bytes) <= 4 || DrawnBases(FromBytes(bytes), DefaultWitnesses, bases)
      modifies this
      ensures Valid()
      ensures currentCount == old(currentCount) && output == old(output)
      ensures reserved == old(reserved) && reservedBases == old(reservedBases)
      ensures waiting == if admitted then old(waiting) + [FromBytes(bytes)] else old(waiting)
      ensures waitingBases == if admitted then old(waitingBases) + [bases] else old(waitingBases)
      ensures admitted <==> PassesTest(FromBytes(bytes), bases) && old(currentCount) < count
      ensures stop <==> PassesTest(FromBytes(bytes), bases) && old(currentCount) >= count
      ensures bytes[|bytes| - 1] >= 128 ==> !admitted && !stop
      ensures IsPrime(FromBytes(bytes)) && old(currentCount) < count ==> admitted
    {
      var bi := FromBytes(bytes);
      DecodeRange(bytes);
      assert 8 * |bytes| == bits;
      var isPrime := IsProbablyPrimeCorrected(bi, DefaultWitnesses, bases);
      admitted, stop := false, false;
      if isPrime {
        if currentCount >= count {
          stop := true;
        } else {
          waiting := waiting + [bi];
          waitingBases := waitingBases + [bases];
          admitted := true;
        }
      }
    }

    /** A waiting worker takes the lock: currentCount goes up by one, OutputNumber writes the line
        for the new value, and the loop is asked to stop once count is reached. It does not check
        currentCount again, so currentCount may pass count; OutputNumber then writes nothing. */
    method Reserve(worker: nat) returns (stop: bool)
      requires Valid() && worker < |waiting|
      modifies this
      ensures Valid()
      ensures waiting == RemoveAt(old(waiting), worker)
      ensures waitingBases == RemoveAt(old(waitingBases), worker)
      ensures reserved == old(reserved) + [old(waiting[worker])]
      ensures reservedBases == old(reservedBases) + [old(waitingBases[worker])]
      ensures currentCount == old(currentCount) + 1
      ensures output == old(output) +
        if currentCount <= count then [Line(currentCount, old(waiting[worker]), currentCount < count)] else []
      ensures stop <==> currentCount >= count
    {
      var bi := waiting[worker];
      ghost var b := waitingBases[worker];
      waiting := RemoveAt(waiting, worker);
      waitingBases := RemoveAt(waitingBases, worker);
      currentCount := currentCount + 1;
      LogExtend(reserved, bi, count);
      reserved := reserved + [bi];
      reservedBases := reservedBases + [b];
      var line := OutputNumber(count, bi, currentCount);
      if line.Some? {
        output := output + [line.value];
      }
      stop := currentCount >= count;
    }
  
    /** The output as the program shows it: min(currentCount, count) lines numbered 1, 2, ... in
        the order the primes took the lock, each followed by an empty line except the count-th,
        and each showing a value that passed the test. */
    lemma OutputShape()
      requires Valid()
      ensures |output| == if currentCount <= count then currentCount else count
      ensures forall i :: 0 <= i < |output| ==>
        output[i] == Line(i + 1, reserved[i], i + 1 < count) &&
        PassesTest(output[i].value, reservedBases[i]) && 2 <= output[i].value < Pow(2, bits - 1)
    {
      LogShape(reserved, count);
    }

    /** What holds part-way through a pass over events that started with reserved == r0 and
        waiting == w0, after the first k events: the state is valid and only grew, and the stop
        flag is raised only once count is reached (and is raised then, if the pass started below
        count). admitted is the multiset of the candidates that passed the unlocked check so far:
        the values that took the lock since and the values still waiting are, together, exactly
        w0 and admitted, so each admitted worker takes the lock once. admitted holds only passing
        Draws of the events, and all of them while no stop was asked for. */
    ghost predicate InPass(r0: seq<int>, w0: seq<int>, events: seq<Event>, k: nat, stopped: bool,
                           admitted: multiset<int>)
      reads this
    {
      Valid() && k <= |events| && r0 <= reserved &&
      (stopped ==> currentCount >= count) &&
      (|r0| < count ==> (stopped <==> currentCount >= count)) &&
      multiset(reserved[|r0|..]) + multiset(waiting) == multiset(w0) + admitted &&
      admitted <= PassingValues(events[..k]) &&
      (!stopped ==> admitted == PassingValues(events[..k]))
    }

    /** The Parallel.For body for one event of the pass. */
    method Step(ghost r0: seq<int>, ghost w0: seq<int>, events: seq<Event>, k: nat, stopped: bool,
                ghost admitted: multiset<int>)
      returns (stopped': bool, ghost admitted': multiset<int>)
      requires InPass(r0, w0, events, k, stopped, admitted) && k < |events| && WellDrawn(bits, events)
      modifies this
      ensures InPass(r0, w0, events, k + 1, stopped', admitted')
      ensures old(reserved) <= reserved && old(output) <= output
      ensures events[k].Draw? ==>
        reserved == old(reserved) && output == old(output) && currentCount == old(currentCount)
      ensures events[k].Draw? && stopped ==> waiting == old(waiting) && admitted' == admitted && stopped'
      ensures events[k].Enter? && events[k].worker < old(|waiting|) ==>
        waiting == RemoveAt(old(waiting), events[k].worker) &&
        reserved == old(reserved) + [old(waiting)[events[k].worker]] &&
        currentCount == old(currentCount) + 1
      ensures events[k].Enter? && events[k].worker >= old(|waiting|) ==>
        waiting == old(waiting) && reserved == old(reserved) && output == old(output) &&
        currentCount == old(currentCount) && stopped' == stopped
    {
      PassingValuesStep(events, k);
      if events[k].Draw? {
        stopped', admitted' := DrawStep(r0, w0, events, k, stopped, admitted);
      } else {
        stopped' := EnterStep(r0, w0, events, k, stopped, admitted);
        admitted' := admitted;
      }
    }

    /** A new iteration draws a candidate; none starts once the stop was asked for. */
    method DrawStep(ghost r0: seq<int>, ghost w0: seq<int>, events: seq<Event>, k: nat, stopped: bool,
                    ghost admitted: multiset<int>)
      returns (stopped': bool, ghost admitted': multiset<int>)
      requires InPass(r0, w0, events, k, stopped, admitted) && k < |events| && WellDrawn(bits, events)
      requires events[k].Draw?
      requires PassingValues(events[..k + 1]) == PassingValues(events[..k]) +
        if Passes(events[k]) then multiset{FromBytes(events[k].bytes)} else multiset{}
      modifies this
      ensures InPass(r0, w0, events, k + 1, stopped', admitted')
      ensures reserved == old(reserved) && output == old(output) && currentCount == old(currentCount)
      ensures stopped ==> waiting == old(waiting) && admitted' == admitted && stopped'
      ensures !stopped && Passes(events[k]) && old(currentCount) < count ==>
        waiting == old(waiting) + [FromBytes(events[k].bytes)] &&
        admitted' == admitted + multiset{FromBytes(events[k].bytes)}
      ensures !(!stopped && Passes(events[k]) && old(currentCount) < count) ==>
        waiting == old(waiting) && admitted' == admitted
    {
      stopped', admitted' := stopped, admitted;
      if !stopped {
        ghost var before, rs := waiting, multiset(reserved[|r0|..]);
        var admit, stop := Attempt(events[k].bytes, events[k].bases);
        if admit {
          admitted' := admitted + multiset{FromBytes(events[k].bytes)};
          assert multiset(waiting) == multiset(before) + multiset{FromBytes(events[k].bytes)};
          assert rs + multiset(waiting) == rs + multiset(before) + multiset{FromBytes(events[k].bytes)};
        }
        stopped' := stop;
      }
    }

    /** A waiting worker, if there is one with that index, takes the lock. */
    method EnterStep(ghost r0: seq<int>, ghost w0: seq<int>, events: seq<Event>, k: nat, stopped: bool,
                     ghost admitted: multiset<int>)
      returns (stopped': bool)
      requires InPass(r0, w0, events, k, stopped, admitted) && k < |events| && events[k].Enter?
      requires PassingValues(events[..k + 1]) == PassingValues(events[..k])
      modifies this
      ensures InPass(r0, w0, events, k + 1, stopped', admitted)
      ensures old(output) <= output
      ensures events[k].worker < old(|waiting|) ==>
        waiting == RemoveAt(old(waiting), events[k].worker) &&
        reserved == old(reserved) + [old(waiting)[events[k].worker]] &&
        currentCount == old(currentCount) + 1
      ensures events[k].worker >= old(|waiting|) ==>
        waiting == old(waiting) && reserved == old(reserved) && output == old(output) &&
        currentCount == old(currentCount) && stopped' == stopped
    {
      stopped' := stopped;
      if events[k].worker < |waiting| {
        ghost var before := reserved;
        var stop := Reserve(events[k].worker);
        assert reserved[|r0|..] == before[|r0|..] + [reserved[|before|]];
        stopped' := stopped || stop;
      }
    }

    /** After the last event the first worker still waiting takes the lock. */
    method Finish(ghost r0: seq<int>, ghost w0: seq<int>, events: seq<Event>, stopped: bool,
                  ghost admitted: multiset<int>)
      returns (stopped': bool)
      requires InPass(r0, w0, events, |events|, stopped, admitted) && waiting != []
      modifies this
      ensures InPass(r0, w0, events, |events|, stopped', admitted)
      ensures waiting == RemoveAt(old(waiting), 0)
      ensures reserved == old(reserved) + [old(waiting[0])]
      ensures currentCount == old(currentCount) + 1
    {
      ghost var before := reserved;
      var stop := Reserve(0);
      assert reserved[|r0|..] == before[|r0|..] + [reserved[|before|]];
      stopped' := stopped || stop;
    }

    /** Parallel.For over the events of one interleaving. Once the loop is asked to stop no new
        iteration starts; an iteration started before that would only find currentCount >= count
        and ask again, so a Draw after the stop is dropped. Iterations already past the unlocked
        check still take the lock, and Parallel.For returns only once they all have. admitted is
        the multiset of the candidates of the pass that passed the unlocked check. */
    method Run(events: seq<Event>) returns (stopped: bool, ghost admitted: multiset<int>)
      requires Valid() && WellDrawn(bits, events)
      modifies this
      ensures Valid() && waiting == []
      ensures old(reserved) <= reserved && old(output) <= output
      ensures multiset(reserved[|old(reserved)|..]) == multiset(old(waiting)) + admitted
      ensures admitted <= PassingValues(events)
      ensures !stopped ==> admitted == PassingValues(events)
      ensures old(currentCount) < count ==> (stopped <==> currentCount >= count)
      ensures stopped ==> currentCount >= count && |output| == count
    {
      ghost var r0, w0 := reserved, waiting;
      stopped, admitted := false, multiset{};
      assert events[..0] == [];
      assert reserved[|r0|..] == [];
      for k := 0 to |events|
        invariant InPass(r0, w0, events, k, stopped, admitted)
      {
        stopped, admitted := Step(r0, w0, events, k, stopped, admitted);
      }
      while waiting != []
        invariant InPass(r0, w0, events, |events|, stopped, admitted)
        decreases |waiting|
      {
        stopped := Finish(r0, w0, events, stopped, admitted);
      }
      assert events[..|events|] == events;
      LogPrefix(r0, reserved[|r0|..], count);
      assert r0 + reserved[|r0|..] == reserved;
      OutputShape();
    }

    /** What holds after the first k passes of a run that started with reserved == r0 and nothing
        waiting: the values that took the lock since are some of the passing candidates of those
        passes, each at most as often as it was drawn, and, while count is not reached, exactly
        those candidates. */
    ghost predicate AfterPasses(r0: seq<int>, passes: seq<seq<Event>>, k: nat)
      reads this
    {
      Valid() && waiting == [] && k <= |passes| && r0 <= reserved &&
      multiset(reserved[|r0|..]) <= AllPassingValues(passes[..k]) &&
      (currentCount < count ==> multiset(reserved[|r0|..]) == AllPassingValues(passes[..k]))
    }

    /** One more Parallel.For pass of GeneratePrimes. */
    method NextPass(ghost r0: seq<int>, passes: seq<seq<Event>>, k: nat)
      requires AfterPasses(r0, passes, k) && k < |passes| && WellDrawn(bits, passes[k])
      modifies this
      ensures AfterPasses(r0, passes, k + 1)
      ensures old(reserved) <= reserved && old(output) <= output
      ensures currentCount >= old(currentCount)
    {
      assert passes[..k + 1][..k] == passes[..k];
      ghost var before := reserved;
      var stopped, admitted := Run(passes[k]);
      assert reserved[|r0|..] == before[|r0|..] + reserved[|before|..];
    }

    /** GeneratePrimes: Parallel.For passes, one after another, while currentCount < count. The
        passes a run needs are given up front; done reports whether they were enough. The values
        of the lines written are passing candidates of the passes, none shown more often than it
        was drawn; when the passes were not enough, they are exactly those candidates. */
    method GeneratePrimes(passes: seq<seq<Event>>) returns (done: bool)
      requires Valid() && waiting == []
      requires forall k :: 0 <= k < |passes| ==> WellDrawn(bits, passes[k])
      modifies this
      ensures Valid() && waiting == []
      ensures old(output) <= output
      ensures multiset(Values(output[|old(output)|..])) <= AllPassingValues(passes)
      ensures !done ==> multiset(Values(output[|old(output)|..])) == AllPassingValues(passes)
      ensures forall i :: |old(output)| <= i < |output| ==> 2 <= output[i].value < Pow(2, bits - 1)
      ensures done <==> currentCount >= count
      ensures done ==> |output| == count && !output[count - 1].separated
      ensures done ==> forall i :: 0 <= i < count ==>
        output[i].seqNo == i + 1 && (i < count - 1 ==> output[i].separated)
    {
      ghost var r0 := reserved;
      assert passes[..0] == [];
      assert reserved[|r0|..] == [];
      var k := 0;
      while currentCount < count && k < |passes|
        invariant AfterPasses(r0, passes, k)
        decreases |passes| - k
      {
        NextPass(r0, passes, k);
        k := k + 1;
      }
      done := currentCount >= count;
      PassesEnded(r0, reserved, count, passes, k);
      OutputShape();
      if done {
        CompleteRun(reserved, count);
      }
    }
  }

  /** When the passes end, because count is reached or none is left: if the values that took the
      lock after r0 are passing candidates of the first k passes, none more often than drawn, the
      lines written for them show such candidates too, and all of them if count was not reached. */
  lemma PassesEnded(r0: seq<int>, reserved: seq<int>, count: int, passes: seq<seq<Event>>, k: nat)
    requires count >= 1 && r0 <= reserved && k <= |passes|
    requires multiset(reserved[|r0|..]) <= AllPassingValues(passes[..k])
    requires |reserved| < count ==>
      k == |passes| && multiset(reserved[|r0|..]) == AllPassingValues(passes[..k])
    ensures Log(r0, count) <= Log(reserved, count)
    ensures multiset(Values(Log(reserved, count)[|Log(r0, count)|..])) <= AllPassingValues(passes)
    ensures |reserved| < count ==>
      multiset(Values(Log(reserved, count)[|Log(r0, count)|..])) == AllPassingValues(passes)
  {
    var more := reserved[|r0|..];
    assert r0 + more == reserved;
    NewValues(r0, more, count);
    var vs := Values(Log(reserved, count)[|Log(r0, count)|..]);
    PrefixMultiset(vs, more);
    AllPassingPrefix(passes, k);
    var drawn := AllPassingValues(passes[..k]);
    assert multiset(vs) <= multiset(more) <= drawn <= AllPassingValues(passes);
    if |reserved| < count {
      assert passes[..k] == passes;
      assert vs == more;
    }
  }

  /** The lines written after the primes in more took the lock behind those in reserved show a
      prefix of more, in order, and all of more while fewer than count primes took the lock. */
  lemma NewValues(reserved: seq<int>, more: seq<int>, count: int)
    requires count >= 0
    ensures Log(reserved, count) <= Log(reserved + more, count)
    ensures Values(Log(reserved + more, count)[|Log(reserved, count)|..]) <= more
    ensures |reserved + more| < count ==>
      Values(Log(reserved + more, count)[|Log(reserved, count)|..]) == more
  {
    LogPrefix(reserved, more, count);
    LogShape(reserved, count);
    LogShape(reserved + more, count);
    var all := reserved + more;
    var from := |Log(reserved, count)|;
    var vs := Values(Log(all, count)[from..]);
    if |reserved| < count {
      forall i | 0 <= i < |vs|
        ensures vs[i] == more[i]
      {
        assert vs[i] == Log(all, count)[from + i].value == all[from + i];
      }
      assert vs == more[..|vs|];
    } else {
      assert vs == [];
    }
  }

  /** The passing values grow by the candidate of events[k] exactly when it passes. */
  lemma PassingValuesStep(events: seq<Event>, k: nat)
    requires k < |events|
    ensures PassingValues(events[..k + 1]) ==
      PassingValues(events[..k]) + if Passes(events[k]) then multiset{FromBytes(events[k].bytes)} else multiset{}
  {
    assert events[..k + 1][..k] == events[..k];
  }

  /** The passing values of more passes include those of fewer. */
  lemma {:induction false} AllPassingPrefix(passes: seq<seq<Event>>, k: nat)
    requires k <= |passes|
    ensures AllPassingValues(passes[..k]) <= AllPassingValues(passes)
    decreases |passes| - k
  {
    if k < |passes| {
      AllPassingPrefix(passes, k + 1);
      assert passes[..k + 1][..k] == passes[..k];
    } else {
      assert passes[..k] == passes;
    }
  }

  /** A value is passing in events exactly when some Draw of events that passes the test has it:
      the multiset holds the passing candidates and nothing else. */
  lemma {:induction false} PassingValuesDrawn(events: seq<Event>, v: int)
    ensures v in PassingValues(events) <==>
      exists i :: 0 <= i < |events| && Passes(events[i]) && FromBytes(events[i].bytes) == v
  {
    if events != [] {
      var n := |events|;
      var init := events[..n - 1];
      PassingValuesDrawn(init, v);
      if v in PassingValues(init) {
        var i :| 0 <= i < |init| && Passes(init[i]) && FromBytes(init[i].bytes) == v;
        assert events[i] == init[i];
      }
      if exists i :: 0 <= i < n && Passes(events[i]) && FromBytes(events[i].bytes) == v {
        var i :| 0 <= i < n && Passes(events[i]) && FromBytes(events[i].bytes) == v;
        if i < n - 1 {
          assert init[i] == events[i];
        }
      }
    }
  }

  /** A value passing over passes is passing in one of them. */
  lemma {:induction false} AllPassingValuesDrawn(passes: seq<seq<Event>>, v: int)
    requires v in AllPassingValues(passes)
    ensures exists k :: 0 <= k < |passes| && v in PassingValues(passes[k])
  {
    var n := |passes|;
    var init := passes[..n - 1];
    if v !in PassingValues(passes[n - 1]) {
      AllPassingValuesDrawn(init, v);
      var k :| 0 <= k < |init| && v in PassingValues(init[k]);
      assert passes[k] == init[k];
    }
  }

  /** The passing values over passes include those of each pass. */
  lemma {:induction false} AllPassingValuesIncludes(passes: seq<seq<Event>>, k: nat)
    requires k < |passes|
    ensures PassingValues(passes[k]) <= AllPassingValues(passes)
  {
    var n := |passes|;
    var init := passes[..n - 1];
    if k < n - 1 {
      AllPassingValuesIncludes(init, k);
      assert passes[k] == init[k];
    }
  }

  /** A prefix of a sequence holds each element at most as often as the sequence. */
  lemma PrefixMultiset<T>(a: seq<T>, b: seq<T>)
    requires a <= b
    ensures multiset(a) <= multiset(b)
  {
    assert b == a + b[|a|..];
  }

  /** The race the missing re-check allows: with count = 1, two workers find the prime 5 and both
      pass the unlocked check before either takes the lock. currentCount ends at 2, one line is
      written, and it carries no empty line after it. */
  method OvershootScenario() returns (finalCount: int, lines: seq<Line>)
    ensures finalCount == 2 && lines == [Line(1, 5, false)]
  {
    var g := TwoWorkersPassTheCheck();
    var stop1 := g.Reserve(0);
    assert g.waiting == [5] && g.output == [Line(1, 5, false)];
    var stop2 := g.Reserve(0);
    finalCount, lines := g.currentCount, g.output;
  }

  /** The first half of the race: both workers find 5 while currentCount is still 0. */
  method TwoWorkersPassTheCheck() returns (g: Generator)
    ensures fresh(g) && g.Valid() && g.count == 1
    ensures g.currentCount == 0 && g.waiting == [5, 5] && g.output == []
  {
    g := new Generator(32, 1);
    FindFive(g);
    FindFive(g);
  }

  /** A worker draws the four bytes of 5 while currentCount is 0 and passes the unlocked check. */
  method FindFive(g: Generator)
    requires g.Valid() && g.bits == 32 && g.count == 1 && g.currentCount == 0
    modifies g
    ensures g.Valid() && g.currentCount == 0 && g.output == old(g.output)
    ensures g.waiting == old(g.waiting) + [5]
  {
    var bytes: seq<Byte> := [5, 0, 0, 0];
    var bases := [2, 2, 2, 2, 2, 2, 2, 2, 2, 2];
    FiveIsDrawn(bytes, bases);
    var admitted, stop := g.Attempt(bytes, bases);
  }

  /** Four bytes that decode to the prime 5, with the only base the redraw loop accepts for 5. */
  lemma FiveIsDrawn(bytes: seq<Byte>, bases: seq<int>)
    requires bytes == [5, 0, 0, 0] && bases == [2, 2, 2, 2, 2, 2, 2, 2, 2, 2]
    ensures FromBytes(bytes) == 5 && IsPrime(FromBytes(bytes))
    ensures DrawnBases(FromBytes(bytes), DefaultWitnesses, bases)
  {
    assert Unsigned(bytes) == 5 by {
      assert bytes[1..] == [0, 0, 0] && bytes[1..][1..] == [0, 0] && bytes[1..][1..][1..] == [0];
      assert Unsigned([0]) == 0 by {
        assert [0][1..] == [];
      }
      assert Unsigned([0, 0]) == 0 by {
        assert [0, 0][1..] == [0];
      }
      assert Unsigned([0, 0, 0]) == 0 by {
        assert [0, 0, 0][1..] == [0, 0];
      }
    }
    assert !Divides(2, 5) && !Divides(3, 5) && !Divides(4, 5);
  }
}
