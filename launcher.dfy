/**
 * The command-line front of the list benchmark: the checks `main` makes
 * before any list exists, each failure with its own exit code, and the seed
 * each worker thread receives.
 *
 * Arguments arrive already split; the percentage arguments are given as the
 * exact values the command line denotes.
 */
module Launcher {

  datatype Option<T> = None | Some(value: T)

  /** The three locking strategies; with the locks stripped away they share one behaviour. */
  datatype Strategy = Coarse | Fine | ReaderWriter

  /** What `main` does: stop with an exit code, or run the benchmark with a strategy. */
  datatype Launch = Exit(code: int) | Run(strategy: Strategy)

  /** The command-line spelling of each strategy. */
  function StrategyName(s: Strategy): string
  {
    match s
    case Coarse => "coarse"
    case Fine => "fine"
    case ReaderWriter => "rw"
  }

  /** The strategy a command-line word selects, if any. */
  function ParseStrategy(name: string): (r: Option<Strategy>)
    ensures r.Some? ==> StrategyName(r.value) == name
    ensures r.None? ==> forall s :: StrategyName(s) != name
  {
    if name == "coarse" then Some(Coarse)
    else if name == "fine" then Some(Fine)
    else if name == "rw" then Some(ReaderWriter)
    else None
  }

  /** Every strategy's spelling is read back as that strategy. */
  lemma ParseName(s: Strategy)
    ensures ParseStrategy(StrategyName(s)) == Some(s)
  {
  }

  function Abs(x: real): real
  {
    if x < 0.0 then -x else x
  }

  /** The three operation percentages add up to 100, within the tolerance of one millionth. */
  predicate PercentagesAddUp(member: real, insert: real, delete: real)
  {
    Abs(member + insert + delete - 100.0) <= 0.000001
  }

  /**
   * The checks of `main`, in their order: fewer than ten arguments (the
   * program name and nine parameters) is exit code 1; percentages that do
   * not add up to 100 is exit code 2; a strategy name other than the three
   * known ones is exit code 3; otherwise the benchmark runs with the named
   * strategy.
   */
  function Dispatch(argc: int, name: string, member: real, insert: real, delete: real): (r: Launch)
    ensures r == Exit(1) <==> argc < 10
    ensures r == Exit(2) <==> argc >= 10 && !PercentagesAddUp(member, insert, delete)
    ensures r == Exit(3) <==> argc >= 10 && PercentagesAddUp(member, insert, delete) && ParseStrategy(name).None?
    ensures r.Exit? ==> r.code in {1, 2, 3}
    ensures r.Run? <==> argc >= 10 && PercentagesAddUp(member, insert, delete) && ParseStrategy(name).Some?
    ensures r.Run? ==> StrategyName(r.strategy) == name
  {
    if argc < 10 then Exit(1)
    else if !PercentagesAddUp(member, insert, delete) then Exit(2)
    else match ParseStrategy(name)
      case None => Exit(3)
      case Some(s) => Run(s)
  }

  /** The usual split, 80% Member, 10% Insert and 10% Delete, runs with the reader-writer strategy. */
  lemma DispatchTypical()
    ensures Dispatch(10, "rw", 80.0, 10.0, 10.0) == Run(ReaderWriter)
  {
  }

  /** A split that misses 100 by one point is refused with code 2, even with an unknown strategy name. */
  lemma DispatchBadSplit()
    ensures Dispatch(10, "bogus", 80.0, 10.0, 9.0) == Exit(2)
  {
  }

  const Two64: int := 0x1_0000_0000_0000_0000

  /**
   * The seed of worker `t`: the command-line seed plus 101 times `t + 1`,
   * computed in unsigned 64-bit arithmetic.
   */
  function WorkerSeed(seed: nat, t: nat): (r: nat)
    requires seed < Two64
    ensures r < Two64
  {
    (seed + 101 * (t + 1)) % Two64
  }

  /**
   * Two different workers of one run get different 64-bit seeds: `t` is an
   * `int` in the source, below 2^31, and 101 times the gap between two such
   * indices never reaches 2^64.
   */
  lemma WorkerSeedsDistinct(seed: nat, t: nat, u: nat)
    requires seed < Two64 && t < u < 0x8000_0000
    ensures WorkerSeed(seed, t) != WorkerSeed(seed, u)
  {
    var a := seed + 101 * (t + 1);
    var b := seed + 101 * (u + 1);
    assert b - a == 101 * (u - t);
    assert 0 < b - a < Two64;
  }

  const Two32: int := 0x1_0000_0000

  /** Reducing modulo 2^64 and then modulo 2^32 is reducing modulo 2^32. */
  lemma LowBits(a: nat)
    ensures (a % Two64) % Two32 == a % Two32
  {
    var q := a / Two64;
    assert a == (q * Two32) * Two32 + a % Two64;
  }

  /** Two numbers with the same low 32 bits differ by a multiple of 2^32. */
  lemma SameLowBits(a: nat, b: nat)
    requires a % Two32 == b % Two32
    ensures b - a == (b / Two32 - a / Two32) * Two32
  {
    assert a == (a / Two32) * Two32 + a % Two32;
    assert b == (b / Two32) * Two32 + b % Two32;
  }

  /**
   * 101 is invertible modulo 2^32, its inverse being 2083697005 (101 times
   * it is 1 + 49 * 2^32), so a multiple of 2^32 that is 101 times `d` makes
   * `d` itself a multiple of 2^32.
   */
  lemma OddFactor(d: int, k: int)
    requires 101 * d == k * Two32
    ensures d == (k * 2083697005 - 49 * d) * Two32
  {
    var inv := 2083697005;
    calc {
      d + 49 * d * Two32;
      d * (101 * inv);
      (101 * d) * inv;
      (k * Two32) * inv;
    }
  }

  /**
   * The Mersenne Twister keeps only the low 32 bits of the seed it is given,
   * and those differ too for two different workers of one run, so their
   * random streams differ: 101 times a gap below 2^31 is never a multiple
   * of 2^32.
   */
  lemma WorkerStreamsDistinct(seed: nat, t: nat, u: nat)
    requires seed < Two64 && t < u < 0x8000_0000
    ensures WorkerSeed(seed, t) % Two32 != WorkerSeed(seed, u) % Two32
  {
    var a := seed + 101 * (t + 1);
    var b := seed + 101 * (u + 1);
    var d := u - t;
    assert b == a + 101 * d;
    LowBits(a);
    LowBits(b);
    if a % Two32 == b % Two32 {
      SameLowBits(a, b);
      OddFactor(d, b / Two32 - a / Two32);
      assert false;
    }
  }
}
