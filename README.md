# Prime-Generator, modelled in Dafny

Prime-Generator is a C# console program, `dotnet run PrimeGen <bits> <count=1>`. It prints `count`
random probable primes drawn from `bits / 8` random bytes. The bytes are read as a signed
two's-complement number, so a draw with the top bit set is negative and never passes. Every
prime printed is therefore below 2^(bits−1), and its length is not forced to `bits` bits. Worker threads of a `Parallel.For` loop draw random byte arrays. Each
array is read as a `BigInteger` and checked with a Miller–Rabin extension method,
`IsProbablyPrime`. The threads that find a probable prime are numbered under a lock and
printed in the format `n: value`. An empty line follows each value except the last.

The model covers four parts of `Program.cs`:

* **Miller–Rabin test** (`MillerRabin`)
  * Strips the factors of two from value − 1 with a loop (`Factor`).
  * The random bases are inputs, one per round. They satisfy the exit condition of the redraw loop.
  * The rounds run as the same `for`/`continue`/`break` loops (`IsProbablyPrime`).
  * `BigInteger.ModPow` is the specification function `Arithmetic.ModPow`.
  * The method answers true exactly when every base is a strong base in the code's sense.
  * It never answers false for a prime. This rests on Fermat's little theorem and the square roots of 1 modulo a prime (`NumberTheory`), both proved here.
* **Candidate decoding** (`BigIntegerBytes`)
  * `new BigInteger(bytes)` is little-endian two's complement.
  * The range, sign and round-trip facts are proved for it.
  * The length of `ToByteArray()` is modelled too.
* **Reservation and output** (`PrimeSearch`)
  * The state of `Program`: `count`, `currentCount`, the workers that have passed the unlocked check and wait for the lock, and the lines written so far. Ghost fields record the bases each waiting or printed value passed the test with.
  * Each worker's check runs without the lock, and the code under the lock does not check again. So several workers can pass the check before the first one increments `currentCount`, and `currentCount` can end above `count`.
  * Proved anyway: the output is exactly the lines numbered 1..min(currentCount, count), in lock order. An empty line follows line `t` exactly when `t < count`.
  * Each worker that passes the unlocked check takes the lock exactly once. So the printed values, counted with multiplicity, are some of the candidates of the passes that passed the test, and none is printed more often than it was drawn. When the passes did not reach `count`, they are exactly those candidates.
  * Once the loop stops, exactly `count` lines have been written.
* **Argument validation** (`CommandLine`)
  * The checks of `Main`, in the program's order, with their error cases.
  * The default count of 1.
  * The run that follows on valid arguments.

The threads become an explicit interleaving: a sequence of `Draw` and `Enter` events.

## Model

| member | source | states |
|---|---|---|
| `BigIntegerBytes.FromBytes` | Program.cs:117 | `new BigInteger(bytes)` is the unsigned little-endian reading of the bytes, or that reading less 2^(8n); the value is negative only when the top bit of the last byte is set |
| `BigIntegerBytes.DecodeRange` | Program.cs:115-117 | a candidate decoded from n bytes lies in [−2^(8n−1), 2^(8n−1)) and is negative exactly when the top bit of the last byte is set |
| `BigIntegerBytes.DecodeEncode` | Program.cs:117 | decoding the n-byte two's-complement form of any v in range gives back v |
| `BigIntegerBytes.EncodeDecode` | Program.cs:117 | every byte array is the two's-complement form of its decoded value, so decoding loses nothing |
| `BigIntegerBytes.ByteLength` | Program.cs:46 | the array the bases are drawn into is the shortest whose signed range holds value: value < 2^(8n−1), and value ≥ 2^(8(n−1)−1) when n > 1 |
| `MillerRabin.WitnessRounds` | Program.cs:31-35 | a positive witness count is used as given, and zero or fewer falls back to 10, so the test always runs at least one round |
| `MillerRabin.Factor` | Program.cs:37-44 | the halving loop ends with d odd and d·2^s == value − 1 (d and s are the odd part and the two-adic exponent of value − 1) |
| `MillerRabin.OddPartFactorization` | Program.cs:37-44 | the odd part times 2 to the two-adic exponent gives back m |
| `MillerRabin.FactorizationUnique` | Program.cs:37-44 | any odd d and s with d·2^s == m are the ones the halving loop computes |
| `MillerRabin.RedrawNeverEndsBelowFive` | Program.cs:51-57 | for value in {2, 3, 4} no base meets the exit condition of the redraw loop |
| `MillerRabin.RedrawCanEndFromFive` | Program.cs:51-57 | from value 5 on the base 2 meets the exit condition |
| `MillerRabin.AcceptedBaseIsDrawable` | Program.cs:46-57 | every base the redraw loop accepts is the value of some byte array of the drawn length, so fixing the bases as inputs leaves none out |
| `MillerRabin.NegativeDrawRejected` | Program.cs:54-57 | a draw with the top bit set decodes to a negative number and is drawn again |
| `MillerRabin.ChainStep` | Program.cs:58-62 | each squaring moves x from a^(d·2^r) mod n to a^(d·2^(r+1)) mod n |
| `MillerRabin.EarlyOneRevealsComposite` | Program.cs:62-63 | a square that reaches 1 from a value other than 1 and n − 1 proves n composite |
| `MillerRabin.OneBeforeMinusOne` | Program.cs:60-63 | a round that meets 1 before n − 1 means the base is not strong |
| `MillerRabin.MinusOneNeverMet` | Program.cs:60-66 | a round whose s − 1 squarings all miss n − 1 means the base is not strong |
| `MillerRabin.PrimeIsStrongForEveryBase` | Program.cs:58-66 | for a prime n ≥ 3 every base in [1, n − 1] passes its round |
| `MillerRabin.RejectedBaseRevealsComposite` | Program.cs:58-66 | for n ≥ 5, an accepted base that fails its round proves n composite |
| `MillerRabin.IsProbablyPrime` | Program.cs:31-69 | false for value ≤ 1; otherwise true exactly when every supplied base is strong for value; never false for a prime |
| `MillerRabin.IsProbablyPrimeCorrected` | Program.cs:31-69 | as `IsProbablyPrime`, and for value ≤ 4 it answers primality exactly (true for 2 and 3, false for 4) instead of looping |
| `PrimeSearch.OutputNumber` | Program.cs:149-158 | a line `temp: bi` is written exactly when temp ≤ count, and an empty line follows it exactly when temp < count |
| `PrimeSearch.LogShape` | Program.cs:126-158 | after m lock entries the output has min(m, count) lines; line i is numbered i + 1, shows the (i+1)-th prime to take the lock, and is followed by an empty line exactly when i + 1 < count |
| `PrimeSearch.LogExtend` | Program.cs:128-129 | one more lock entry adds line `currentCount: value`, or nothing once currentCount > count |
| `PrimeSearch.LogPrefix` | Program.cs:149-158 | later lock entries never change lines already written |
| `PrimeSearch.CompleteRun` | Program.cs:149-158 | once at least count primes took the lock there are exactly count lines, numbered 1..count, with an empty line after all but the last |
| `PrimeSearch.NumbersIncrease` | Program.cs:128-129 | the numbers written strictly increase and never exceed count |
| `PrimeSearch.Generator.constructor` | Program.cs:97-102 | a new Program has found nothing and written nothing |
| `PrimeSearch.Generator.Attempt` | Program.cs:114-124 | a drawn candidate that passes the test joins, with its bases, the workers waiting for the lock if currentCount < count, and asks the loop to stop otherwise; a draw with the top bit set never passes; a prime drawn while currentCount < count is always admitted |
| `PrimeSearch.Generator.Reserve` | Program.cs:126-131 | taking the lock raises currentCount by one with no re-check, writes the line for the new count when it is ≤ count, and asks the loop to stop exactly when currentCount ≥ count |
| `PrimeSearch.Generator.OutputShape` | Program.cs:118-158 | in every reachable state the output is the lines numbered 1..min(currentCount, count) in lock order, separated as the format demands; each shows a value below 2^(bits−1) that passed the test with its recorded bases |
| `PrimeSearch.Generator.Step` | Program.cs:112-132 | one iteration of the Parallel.For body only appends to the reserved values and the output; a Draw never takes the lock and, after the stop, changes nothing; an Enter for a waiting worker moves its value from the waiting workers to the reserved values and raises currentCount by one, and an Enter for no worker changes nothing; the pass invariant is kept (the reserved values since the pass began and the waiting workers are, as a multiset, the workers waiting at the start plus the admitted candidates, which are passing Draws of the pass, and all of them while no stop was asked for) |
| `PrimeSearch.Generator.DrawStep` | Program.cs:113-124 | a Draw leaves the reserved values, the output and currentCount alone; before the stop, one that passes the test while currentCount < count joins the waiting workers and the admitted candidates, and any other leaves both unchanged; after the stop it changes nothing and the stop stays; the pass invariant is kept |
| `PrimeSearch.Generator.EnterStep` | Program.cs:125-131 | a waiting worker that takes the lock leaves the waiting workers, its value is appended to the reserved values and currentCount goes up by one; the output only grows; an Enter naming no waiting worker changes nothing; the pass invariant is kept |
| `PrimeSearch.Generator.Finish` | Program.cs:112-135 | when the iterations run out, the first worker still waiting takes the lock (its value is appended to the reserved values, currentCount goes up by one, it leaves the waiting workers) before Parallel.For returns, keeping the pass invariant |
| `PrimeSearch.Generator.Run` | Program.cs:112-135 | one Parallel.For pass returns with no worker waiting and only appends; the values that took the lock in it are, as a multiset, exactly the workers waiting before plus the admitted candidates, which are passing Draws of the pass, each at most as often as drawn, and all of them without a stop; a pass that starts below count stops exactly when it reaches count, and then the output holds exactly count lines |
| `PrimeSearch.Generator.NextPass` | Program.cs:110-136 | one more iteration of the while loop only appends to the reserved values and the output and never lowers currentCount; the values that took the lock since the start stay within the passing candidates of the passes so far, and equal them while currentCount < count |
| `PrimeSearch.Generator.GeneratePrimes` | Program.cs:108-137 | the passes repeat while currentCount < count; the values of the new lines, as a multiset, are contained in the passing candidates of the passes, and equal them when the passes end below count; every new value is below 2^(bits−1); when they end with currentCount ≥ count the output is complete and correctly numbered and separated |
| `PrimeSearch.PassesEnded` | Program.cs:110-158 | when the while loop ends, the lines written since its start show passing candidates of the passes, none more often than drawn, and all of them if count was not reached |
| `PrimeSearch.NewValues` | Program.cs:126-158 | the lines written for later lock entries show, in lock order, a prefix of the values that took the lock, and all of them while fewer than count entries were made |
| `PrimeSearch.AllPassingPrefix` | Program.cs:110-136 | later passes only add passing candidates to those of earlier passes |
| `PrimeSearch.PassingValuesDrawn` | Program.cs:113-124 | a value is among the passing candidates of a pass exactly when some Draw of the pass has it and passes the test |
| `PrimeSearch.AllPassingValuesDrawn` | Program.cs:110-136 | a passing candidate over all the passes is a passing candidate of one of them |
| `PrimeSearch.AllPassingValuesIncludes` | Program.cs:110-136 | the passing candidates over all the passes include those of each pass, with multiplicity |
| `PrimeSearch.TwoWorkersPassTheCheck` | Program.cs:118-124 | two workers can both find 5 and pass the unlocked check while currentCount is 0 |
| `PrimeSearch.OvershootScenario` | Program.cs:120-131 | with count = 1 two workers both take the lock; currentCount ends at 2 and only the line `1: 5` is written, without an empty line |
| `CommandLine.ParseArguments` | Program.cs:181-224 | accepted exactly when there are one or two arguments, all numbers, with bits ≥ 32, bits a multiple of 8 and count ≥ 1; each error is the first failing check in the program's order |
| `CommandLine.CountDefaultsToOne` | Program.cs:188-197 | a single valid <bits> asks for one prime |
| `CommandLine.BitsCheckedFirst` | Program.cs:213-224 | an invalid <bits> is reported whatever <count> is |
| `CommandLine.Launch` | Program.cs:179-232 | invalid arguments give their usage error and no run; valid ones give at most count lines, numbered 1, 2, ..., with an empty line after each but the count-th, and exactly count lines when the run finished; every value printed is below 2^(bits−1); the values printed, as a multiset, are contained in the candidates of the passes that passed the test, and equal them when the run did not finish |

## Left out

- Threads, the `sync` lock, `Interlocked.Increment` and `loopState.Stop()` are not modelled as concurrency. A run is an explicit interleaving of `Draw` and `Enter` events, with everything under the lock as one atomic step. The 100000-iteration bound of each `Parallel.For` pass and the scheduler are left to that interleaving.
- `RNGCryptoServiceProvider` and `System.Random` are not modelled. The drawn bytes of a candidate and the bases of each round are inputs. `MillerRabin.AcceptedBaseIsDrawable` shows these inputs range over exactly the bases the redraw loop can produce. The redraw loop's repeated draws are left out.
- The probability bound of the Miller–Rabin test (at most 4^−k for k rounds) is not stated. It needs a probabilistic model.
- `BigInteger.ModPow` is the specification function `Arithmetic.ModPow`, not its square-and-multiply algorithm. It is only applied to nonnegative bases here, so C#'s sign rule for negative remainders is not needed.
- Console output is a sequence of `Line` values, not text. The `Stopwatch` timing, the `BitLength:` and `Time to Generate:` lines, `printUsage` and `Environment.Exit` are left out. A usage error is a `Failure` value instead.
- `Int64.TryParse` is not modelled. The outcome for each argument is an input of `CommandLine.ParseArguments`.
- `PrimeSearch.Generator.Attempt`: the worker uses `MillerRabin.IsProbablyPrimeCorrected` rather than the as-written test, because drawing 2, 3 or 4 makes the as-written test loop forever (see Findings).
- `PrimeSearch.Generator.GeneratePrimes`: the passes are given up front. The method reports whether they found count primes; it does not claim termination, which the program only reaches with probability 1.
- `PrimeSearch.Generator.Run`: a `Draw` after the stop is dropped. In the program, an iteration already started when the stop comes can still complete its test, but it then only sees currentCount ≥ count and asks to stop again, which changes nothing.
- `currentCount`, `count` and `bits` are C# `long`s, and the model uses unbounded integers. `count` is accepted up to 2^63 − 1, and `Interlocked.Increment` would wrap `currentCount` to a negative value past that. Reaching it takes 2^63 − 1 lock entries, each after a prime was found, so the wrap is not modelled.

## Findings

| source | as written | input that shows it | evidently intended | confidence | as-written member | corrected member |
|---|---|---|---|---|---|---|
| Program.cs:51-57 | the redraw loop only ends on a base a with 2 ≤ a < value − 2; no such base exists when value is 2, 3 or 4, so `IsProbablyPrime` never returns for these values | value 2, e.g. a worker drawing the bytes [2, 0, 0, 0] with bits = 32 | true for 2 and 3, false for 4, without drawing a base | high (follows from the loop condition; not executed) | `MillerRabin.RedrawNeverEndsBelowFive` | `MillerRabin.IsProbablyPrimeCorrected` |
