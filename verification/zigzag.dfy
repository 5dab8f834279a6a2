/** The zig-zag walk shared by encryption and decryption. The walk state is a
    rail index and a direction; it starts on rail 0 heading down. Each step
    moves one rail in the current direction and turns around whenever it lands
    on the top or the bottom rail. */
module ZigZag {

  datatype Walk = Walk(rail: int, dir: int)

  /** `rail = 0`, `direction = 1`. */
  const Start: Walk := Walk(0, 1)

  /** One step: `rail += direction`, then flip the direction if the new rail is
      `0` or `rails - 1`. */
  function Step(w: Walk, rails: int): Walk
  {
    var next := w.rail + w.dir;
    Walk(next, if next == 0 || next == rails - 1 then -w.dir else w.dir)
  }

  /** The invariant of the walk: on a rail, moving by one, heading down on the
      top rail and up on the bottom rail. */
  predicate Valid(w: Walk, rails: int)
  {
    && 0 <= w.rail < rails
    && (w.dir == 1 || w.dir == -1)
    && (w.rail == 0 ==> w.dir == 1)
    && (w.rail == rails - 1 ==> w.dir == -1)
  }

  /** The walk state after `i` steps. */
  function StateAt(i: nat, rails: int): (w: Walk)
    requires rails >= 2
    ensures Valid(w, rails)
    ensures i == 0 ==> w == Start
    decreases i
  {
    if i == 0 then Start else Step(StateAt(i - 1, rails), rails)
  }

  /** State `i + 1` is one step on from state `i`. */
  lemma StepAt(i: nat, rails: int)
    requires rails >= 2
    ensures StateAt(i + 1, rails) == Step(StateAt(i, rails), rails)
  {
  }

  /** The rail of each of the first `n` positions. */
  function Pattern(n: nat, rails: int): (p: seq<int>)
    requires rails >= 2
    ensures |p| == n
    ensures forall i :: 0 <= i < n ==> 0 <= p[i] < rails
    ensures n > 0 ==> p[0] == 0
    decreases n
  {
    if n == 0 then [] else Pattern(n - 1, rails) + [StateAt(n - 1, rails).rail]
  }

  /** Consecutive positions of the walk are on neighbouring rails. */
  lemma PatternAdjacent(n: nat, rails: int, i: nat)
    requires rails >= 2 && 0 < i < n
    ensures Pattern(n, rails)[i] == Pattern(n, rails)[i - 1] + 1
         || Pattern(n, rails)[i] == Pattern(n, rails)[i - 1] - 1
  {
    PatternAt(n, rails, i);
    PatternAt(n, rails, i - 1);
    StepAt(i - 1, rails);
  }

  /** Entry `i` of the pattern is the rail of walk state `i`. */
  lemma {:induction false} PatternAt(n: nat, rails: int, i: nat)
    requires rails >= 2 && i < n
    ensures Pattern(n, rails)[i] == StateAt(i, rails).rail
    decreases n
  {
    if i < n - 1 {
      PatternAt(n - 1, rails, i);
    }
  }

  /** The walk of `m` positions is the first `m` positions of any longer walk:
      the pattern depends only on its length and the rail count. */
  lemma {:induction false} PatternPrefix(n: nat, m: nat, rails: int)
    requires rails >= 2 && m <= n
    ensures Pattern(n, rails)[..m] == Pattern(m, rails)
    decreases n
  {
    if m < n {
      PatternPrefix(n - 1, m, rails);
      assert Pattern(n, rails)[..n - 1] == Pattern(n - 1, rails);
    } else {
      assert Pattern(n, rails)[..n] == Pattern(n, rails);
    }
  }

  /** The classical rail-fence path in closed form: rails 0, 1, ..., R-1,
      R-2, ..., 1 repeating with period `2R - 2`, heading down on the first
      half of each period and up on the second. */
  function Classic(i: nat, rails: int): Walk
    requires rails >= 2
  {
    var period := 2 * rails - 2;
    var m := i % period;
    if m < rails - 1 then Walk(m, 1) else Walk(period - m, -1)
  }

  /** `(i + 1) % p` is the successor of `i % p`, wrapping to 0. */
  lemma ModSucc(i: nat, p: int)
    requires p >= 1
    ensures (i + 1) % p == if i % p == p - 1 then 0 else i % p + 1
  {
    var q, m := i / p, i % p;
    assert i == p * q + m;
    if m == p - 1 {
      assert i + 1 == p * (q + 1) + 0;
      ModUnique(i + 1, p, q + 1, 0);
    } else {
      assert i + 1 == p * q + (m + 1);
      ModUnique(i + 1, p, q, m + 1);
    }
  }

  /** Euclidean remainder is unique. */
  lemma ModUnique(a: nat, p: int, q: int, m: int)
    requires p >= 1 && 0 <= m < p && a == p * q + m
    ensures a % p == m
  {
    var q', m' := a / p, a % p;
    assert p * q' + m' == a;
    var d := q - q';
    assert p * d == m' - m by {
      assert p * q - p * q' == p * (q - q');
    }
  }

  /** One step of the walk advances the closed form by one position. */
  lemma StepClassic(i: nat, rails: int)
    requires rails >= 2
    ensures Step(Classic(i, rails), rails) == Classic(i + 1, rails)
  {
    ModSucc(i, 2 * rails - 2);
  }

  /** The walk computed step by step is the classical path. */
  lemma {:induction false} StateAtIsClassic(i: nat, rails: int)
    requires rails >= 2
    ensures StateAt(i, rails) == Classic(i, rails)
    decreases i
  {
    if i == 0 {
      assert 0 % (2 * rails - 2) == 0;
    } else {
      StateAtIsClassic(i - 1, rails);
      StepClassic(i - 1, rails);
    }
  }

  /** Every pattern entry is the classical rail for its position. */
  lemma PatternIsClassic(n: nat, rails: int)
    requires rails >= 2
    ensures forall i :: 0 <= i < n ==> Pattern(n, rails)[i] == Classic(i, rails).rail
  {
    forall i | 0 <= i < n
      ensures Pattern(n, rails)[i] == Classic(i, rails).rail
    {
      PatternAt(n, rails, i);
      StateAtIsClassic(i, rails);
    }
  }

  /** Before the first turn the walk visits rails 0, 1, 2, ... in order. */
  lemma {:induction false} StateAtBeforeTurn(i: nat, rails: int)
    requires rails >= 2 && i < rails
    ensures StateAt(i, rails).rail == i
    ensures i < rails - 1 ==> StateAt(i, rails).dir == 1
    decreases i
  {
    if i > 0 {
      StateAtBeforeTurn(i - 1, rails);
    }
  }

  /** A walk no longer than the rail count visits distinct rails
      `0, 1, ..., n - 1`. */
  lemma ShortPattern(n: nat, rails: int)
    requires rails >= 2 && n <= rails
    ensures forall i :: 0 <= i < n ==> Pattern(n, rails)[i] == i
  {
    forall i | 0 <= i < n
      ensures Pattern(n, rails)[i] == i
    {
      PatternAt(n, rails, i);
      StateAtBeforeTurn(i, rails);
    }
  }
}
