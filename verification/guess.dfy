/** hw02: guessing strategies and the round-robin game loop. */
module Guess {
  import opened Machine

  /** The state of a strategy: libbinary.c, liblinear.c and liboracle.c. */
  datatype Strategy =
    | Binary(min: int, max: int)
    | Linear(min: int, max: int, state: bool)
    | Oracle(min: int, max: int, tries: nat)

  /** C division by two, which truncates towards zero. */
  function Half(x: int): (h: int)
  {
    if x >= 0 then x / 2 else -((-x) / 2)
  }

  /** `random` is what rand() would give the oracle; the other strategies ignore it. */
  function GuessOf(s: Strategy, random: int): (g: int)
  {
    match s
    case Binary(min, max) => Half(min + max)
    case Linear(min, max, state) => if state then min else max
    case Oracle(_, _, _) => random
  }

  /** `up` is the sign +1: the secret is above the guess. */
  function Notified(s: Strategy, up: bool): (r: Strategy)
  {
    match s
    case Binary(min, max) => if up then Binary(Half(min + max), max) else Binary(min, Half(min + max))
    case Linear(min, max, state) =>
      if state then Linear(min + 1, max, false) else Linear(min, max - 1, true)
    case Oracle(min, max, tries) => Oracle(min, max, tries + 1)
  }

  /** A strategy after `t` wrong guesses of its own. The oracle ignores what it is told. */
  function After(s: Strategy, secret: int, t: nat): (r: Strategy)
  {
    if t == 0 then s
    else
      var before := After(s, secret, t - 1);
      Notified(before, GuessOf(before, 0) < secret)
  }

  /** The guess number `t`, counting from zero, of a strategy that uses no random numbers. */
  function Try(s: Strategy, secret: int, t: nat): (g: int)
  {
    GuessOf(After(s, secret, t), 0)
  }

  /** No guess before number `t` was right. */
  ghost predicate Unguessed(s: Strategy, secret: int, t: nat)
  {
    forall k: nat :: k < t ==> Try(s, secret, k) != secret
  }

  // ----- `int` arithmetic

  const INT_MAX: int := 0x7FFF_FFFF
  const INT_MIN: int := -0x8000_0000

  predicate InInt(x: int) { INT_MIN <= x <= INT_MAX }

  /** The next guess is computed without leaving `int`: the bisecting strategy adds its bounds. */
  predicate Fits(s: Strategy)
  {
    s.Binary? ==> InInt(s.min) && InInt(s.max) && InInt(s.min + s.max)
  }

  /** None of the first `turns` turns that a game can reach leaves `int`. */
  ghost predicate Defined(s: Strategy, secret: int, turns: nat)
  {
    s.Oracle? || forall t: nat :: t < turns && Unguessed(s, secret, t) ==> Fits(After(s, secret, t))
  }

  // ----- the bisecting strategy

  /** The smallest k with w <= 2^k. */
  function CeilLog2(w: nat): (k: nat)
  {
    if w <= 1 then 0 else 1 + CeilLog2((w + 1) / 2)
  }

  lemma {:induction false} CeilLog2Exact(w: nat)
    requires w >= 1
    ensures w <= Pow2(CeilLog2(w)) && (w > 1 ==> Pow2(CeilLog2(w) - 1) < w)
  {
    if w > 1 {
      var v := (w + 1) / 2;
      CeilLog2Exact(v);
      if v > 1 { assert Pow2(CeilLog2(v)) == 2 * Pow2(CeilLog2(v) - 1); }
    }
  }

  lemma {:induction false} CeilLog2Monotone(v: nat, w: nat)
    requires v <= w
    ensures CeilLog2(v) <= CeilLog2(w)
  {
    if v > 1 { CeilLog2Monotone((v + 1) / 2, (w + 1) / 2); }
  }

  /**
    The interval still holds the secret, and not at an end that truncating division turns away
    from: a low end that is negative, a high end that is positive.
   */
  predicate Brackets(s: Strategy, secret: int)
  {
    && s.Binary? && s.min <= secret <= s.max
    && (s.min < s.max ==> (secret == s.min ==> s.min >= 0) && (secret == s.max ==> s.max <= 0))
  }

  lemma BisectOnce(s: Strategy, secret: int)
    requires Brackets(s, secret) && Half(s.min + s.max) != secret
    ensures var r := Notified(s, Half(s.min + s.max) < secret);
            && Brackets(r, secret) && s.min <= r.min && r.max <= s.max
            && r.max - r.min <= (s.max - s.min + 1) / 2
            && s.max - s.min >= 2
  {
  }

  /** `r` lies inside `s` after at most this many halvings. */
  ghost predicate Narrowed(s: Strategy, r: Strategy, secret: int, t: nat)
  {
    && Brackets(s, secret) && Brackets(r, secret) && s.min <= r.min && r.max <= s.max
    && CeilLog2(r.max - r.min) + t <= CeilLog2(s.max - s.min)
  }

  lemma NarrowOnce(s: Strategy, r: Strategy, secret: int, t: nat)
    requires Narrowed(s, r, secret, t) && GuessOf(r, 0) != secret
    ensures Narrowed(s, Notified(r, GuessOf(r, 0) < secret), secret, t + 1)
  {
    BisectOnce(r, secret);
    var r' := Notified(r, GuessOf(r, 0) < secret);
    hide Half, Notified;
    CeilLog2Monotone(r'.max - r'.min, (r.max - r.min + 1) / 2);
  }

  lemma {:induction false} BisectionKeepsBracket(s: Strategy, secret: int, t: nat)
    requires Brackets(s, secret) && Unguessed(s, secret, t)
    ensures Narrowed(s, After(s, secret, t), secret, t)
  {
    if t > 0 {
      hide Narrowed, Brackets, Notified, GuessOf;
      BisectionKeepsBracket(s, secret, t - 1);
      assert Try(s, secret, t - 1) != secret;
      NarrowOnce(s, After(s, secret, t - 1), secret, t - 1);
    }
  }

  lemma {:induction false} FirstHit(s: Strategy, secret: int, t: nat) returns (u: nat)
    ensures Unguessed(s, secret, t) || (u < t && Try(s, secret, u) == secret && Unguessed(s, secret, u))
  {
    u := 0;
    if t > 0 {
      u := FirstHit(s, secret, t - 1);
      if Unguessed(s, secret, t - 1) { u := t - 1; }
    }
  }

  /** Turn `t` is the first right guess, and every turn up to it was computed within `int`. */
  ghost predicate Finds(s: Strategy, secret: int, t: nat)
  {
    Try(s, secret, t) == secret && Unguessed(s, secret, t) && Defined(s, secret, t + 1)
  }

  /**
    The first right guess comes within 1 + ceil(log2(width)) turns of the strategy's own. In C
    it does so whenever no turn leaves `int`, which the bounds of a safe range guarantee.
   */
  lemma BisectionFinds(s: Strategy, secret: int) returns (t: nat)
    requires Brackets(s, secret)
    ensures t <= CeilLog2(s.max - s.min) && Try(s, secret, t) == secret && Unguessed(s, secret, t)
    ensures SafeRange(s.min, s.max) ==> Finds(s, secret, t)
  {
    var bound := CeilLog2(s.max - s.min);
    t := FirstHit(s, secret, bound + 1);
    if Unguessed(s, secret, bound + 1) {
      BisectionKeepsBracket(s, secret, bound + 1);
      assert false;
    }
    if SafeRange(s.min, s.max) { SafeRangeFits(s, secret, t + 1); }
  }

  /** A secret that is a negative lower bound: the interval shrinks to it and stays there. */
  lemma {:induction false} NegativeLowEndIsMissed(s: Strategy, secret: int, t: nat)
    requires s.Binary? && s.min == secret < 0 && secret < s.max
    ensures var r := After(s, secret, t);
            && r.Binary? && r.min == secret < r.max <= s.max && Try(s, secret, t) != secret
            && CeilLog2(r.max - r.min) <= (if t <= CeilLog2(s.max - s.min) then CeilLog2(s.max - s.min) - t else 0)
  {
    hide Half, CeilLog2, Notified, GuessOf;
    if t == 0 {
      MissNow(s);
    } else {
      NegativeLowEndIsMissed(s, secret, t - 1);
      MissOnce(After(s, secret, t - 1));
      CeilLog2Flat(After(s, secret, t - 1));
    }
  }

  /** A secret that is a positive upper bound: the interval shrinks towards it and never gets there. */
  lemma {:induction false} PositiveHighEndIsMissed(s: Strategy, secret: int, t: nat)
    requires s.Binary? && s.min < s.max == secret && secret > 0
    ensures var r := After(s, secret, t);
            r.Binary? && s.min <= r.min < r.max == secret && Try(s, secret, t) != secret
  {
    if t > 0 { PositiveHighEndIsMissed(s, secret, t - 1); }
  }

  lemma MissNow(r: Strategy)
    requires r.Binary? && r.min < 0 && r.min < r.max
    ensures GuessOf(r, 0) != r.min
  {
  }

  lemma CeilLog2Flat(r: Strategy)
    requires r.Binary? && r.min < r.max
    ensures CeilLog2(r.max - r.min) == 0 <==> r.max - r.min == 1
  {
  }

  lemma MissOnce(r: Strategy)
    requires r.Binary? && r.min < 0 && r.min < r.max
    ensures var r' := Notified(r, GuessOf(r, 0) < r.min);
            && r'.Binary? && r'.min == r.min < r'.max <= r.max && GuessOf(r', 0) != r.min
            && CeilLog2(r'.max - r'.min) <= (if r.max - r.min > 1 then CeilLog2(r.max - r.min) - 1 else 0)
  {
    var r' := Notified(r, GuessOf(r, 0) < r.min);
    assert r'.max - r'.min <= (r.max - r.min + 1) / 2;
    CeilLog2Monotone(r'.max - r'.min, (r.max - r.min + 1) / 2);
  }

  // ----- when the sums stay within `int`

  const HALF_RANGE: int := 0x4000_0000

  /** Both bounds are at most 2^30 in magnitude; the single value 2^30 is already too large. */
  predicate SafeRange(min: int, max: int)
  {
    -HALF_RANGE <= min && max <= HALF_RANGE && min + max <= INT_MAX
  }

  lemma SafeRangeFits(s: Strategy, secret: int, turns: nat)
    requires s.Binary? && s.min <= secret <= s.max && SafeRange(s.min, s.max)
    ensures Defined(s, secret, turns)
  {
    forall t: nat | t < turns && Unguessed(s, secret, t)
      ensures Fits(After(s, secret, t))
    {
      if Brackets(s, secret) {
        BisectionKeepsBracket(s, secret, t);
      } else if secret == s.max && s.max > 0 {
        PositiveHighEndIsMissed(s, secret, t);
      } else {
        NegativeLowEndIsMissed(s, secret, t);
      }
    }
  }

  /** Above the range, the turn that guesses max - 1 has a sum beyond INT_MAX. */
  lemma HighSumOverflows(min: int, max: int, turns: nat)
    requires min < max && max > HALF_RANGE && turns > CeilLog2(max - min)
    ensures !Defined(Binary(min, max), max - 1, turns)
  {
    var s := Binary(min, max);
    var t := BisectionFinds(s, max - 1);
    BisectionKeepsBracket(s, max - 1, t);
    var r := After(s, max - 1, t);
    assert Half(r.min + r.max) == max - 1;
    assert !Fits(r);
  }

  /** Below the range, the interval that has shrunk to the lowest secret has a sum below INT_MIN. */
  lemma LowSumOverflows(min: int, max: int, turns: nat)
    requires min < max && min < -HALF_RANGE && turns > CeilLog2(max - min)
    ensures !Defined(Binary(min, max), min, turns)
  {
    var s, t := Binary(min, max), CeilLog2(max - min);
    hide After, CeilLog2, Try;
    forall k: nat ensures Try(s, min, k) != min { NegativeLowEndIsMissed(s, min, k); }
    NegativeLowEndIsMissed(s, min, t);
    var r := After(s, min, t);
    CeilLog2Flat(r);
    assert r.max - r.min == 1 && !Fits(r);
  }

  /** Every game the range allows, with both bounds inclusive as in strategy.h, stays within `int`. */
  ghost predicate AllDefined(min: int, max: int, turns: nat)
  {
    forall secret :: min <= secret <= max ==> Defined(Binary(min, max), secret, turns)
  }

  /**
    The `int` sums, exactly. Over every secret of the range and every turn a game can reach, no
    sum leaves `int` if and only if both bounds are at most 2^30 in magnitude (and the range is
    not 2^30 alone). That the secret max is never drawn makes no difference. The turns needed
    to see an overflow are those needed to find a secret.
   */
  lemma SumsFitExactly(min: int, max: int, turns: nat)
    requires min <= max && turns > CeilLog2(max - min)
    ensures AllDefined(min, max, turns) <==> SafeRange(min, max)
    ensures min < max ==>
              ((forall secret :: min <= secret < max ==> Defined(Binary(min, max), secret, turns))
               <==> SafeRange(min, max))
  {
    var s := Binary(min, max);
    if SafeRange(min, max) {
      forall secret | min <= secret <= max
        ensures Defined(s, secret, turns)
      {
        SafeRangeFits(s, secret, turns);
      }
    } else if min == max {
      assert After(s, min, 0) == s && Unguessed(s, min, 0) && !Fits(s);
      assert !Defined(s, min, turns);
    } else if max > HALF_RANGE {
      HighSumOverflows(min, max, turns);
    } else {
      LowSumOverflows(min, max, turns);
    }
  }

  /** min + max in range is not enough: the second turn of this game overflows. */
  lemma SumCanOverflow()
    ensures var s := Binary(0, INT_MAX);
            && Fits(s) && Unguessed(s, INT_MAX - 1, 1)
            && !Fits(After(s, INT_MAX - 1, 1))
  {
    var s := Binary(0, INT_MAX);
    assert After(s, INT_MAX - 1, 0) == s;
    assert Half(INT_MAX) == 0x3FFF_FFFF;
  }

  // ----- when bisection works

  /** The secret is an end of a proper range that truncating division never reaches. */
  predicate MissedEnd(min: int, max: int, secret: int)
  {
    min < max && ((secret == min && min < 0) || (secret == max && max > 0))
  }

  /**
    For one secret of the range, both bounds inclusive. Truncating division rounds towards zero,
    so the strategy ever guesses the secret exactly when the secret is neither a negative lower
    bound nor a positive upper bound, and no turn on the way leaves `int`.
   */
  lemma BisectionFindsExactly(min: int, max: int, secret: int)
    requires min <= secret <= max
    ensures (exists t: nat :: Finds(Binary(min, max), secret, t))
            <==> !MissedEnd(min, max, secret) && Defined(Binary(min, max), secret, 1 + CeilLog2(max - min))
  {
    hide After, Half, CeilLog2;
    var s := Binary(min, max);
    if min < max && secret == min && min < 0 {
      forall t: nat ensures Try(s, secret, t) != secret { NegativeLowEndIsMissed(s, secret, t); }
    } else if min < max && secret == max && max > 0 {
      forall t: nat ensures Try(s, secret, t) != secret { PositiveHighEndIsMissed(s, secret, t); }
    } else {
      var t := BisectionFinds(s, secret);
      OnlyFirst(s, secret, t, 1 + CeilLog2(max - min));
      hide Defined, Try, Unguessed;
      assert forall u: nat :: Finds(s, secret, u) ==> u == t;
      assert Finds(s, secret, t) <==> Defined(s, secret, t + 1);
    }
  }

  /** Turns after the first right guess are never reached. */
  lemma OnlyFirst(s: Strategy, secret: int, t: nat, turns: nat)
    requires Try(s, secret, t) == secret && Unguessed(s, secret, t) && t < turns
    ensures Defined(s, secret, turns) <==> Defined(s, secret, t + 1)
    ensures forall u: nat :: Try(s, secret, u) == secret && Unguessed(s, secret, u) ==> u == t
  {
    forall u: nat | Unguessed(s, secret, u)
      ensures u <= t
    {
      assert t < u ==> Try(s, secret, t) != secret;
    }
    forall u: nat | Try(s, secret, u) == secret && Unguessed(s, secret, u)
      ensures u == t
    {
      assert u < t ==> Try(s, secret, u) != secret;
    }
  }

  ghost predicate FoundInTime(s: Strategy, secret: int)
    requires s.Binary? && s.min <= s.max
  {
    exists t: nat :: t <= CeilLog2(s.max - s.min) && Finds(s, secret, t)
  }

  /**
    For the whole range. Every secret that gameloop can draw, from min up to max - 1, is found,
    in time and without leaving `int`, if and only if the range has no negative values and does
    not go beyond 2^30. With max included, as strategy.h says, that is never so in a range of
    two values or more.
   */
  lemma EverySecretFoundExactly(min: int, max: int)
    requires min <= max
    ensures min < max ==>
              ((forall secret :: min <= secret < max ==> FoundInTime(Binary(min, max), secret))
               <==> 0 <= min && max <= HALF_RANGE)
    ensures (forall secret :: min <= secret <= max ==> FoundInTime(Binary(min, max), secret))
            <==> min == max && SafeRange(min, max)
  {
    var s := Binary(min, max);
    if min == max {
      OnePoint(min);
    } else {
      DrawnSecretsFound(min, max);
      BisectionFindsExactly(min, max, min);
      BisectionFindsExactly(min, max, max);
      assert MissedEnd(min, max, min) ==> !FoundInTime(s, min);
      assert MissedEnd(min, max, max) ==> !FoundInTime(s, max);
    }
  }

  lemma OnePoint(v: int)
    ensures FoundInTime(Binary(v, v), v) <==> SafeRange(v, v)
  {
    var s := Binary(v, v);
    BisectionFindsExactly(v, v, v);
    SumsFitExactly(v, v, 1);
    if SafeRange(v, v) {
      var t := BisectionFinds(s, v);
    } else {
      assert !Defined(s, v, 1);
    }
  }

  lemma DrawnSecretsFound(min: int, max: int)
    requires min < max
    ensures (forall secret :: min <= secret < max ==> FoundInTime(Binary(min, max), secret))
            <==> 0 <= min && max <= HALF_RANGE
  {
    var s := Binary(min, max);
    if 0 <= min && max <= HALF_RANGE {
      forall secret | min <= secret < max
        ensures FoundInTime(s, secret)
      {
        var t := BisectionFinds(s, secret);
      }
    } else if min < 0 {
      BisectionFindsExactly(min, max, min);
      assert !FoundInTime(s, min);
    } else {
      BisectionFindsExactly(min, max, max - 1);
      HighSumOverflows(min, max, 1 + CeilLog2(max - min));
      assert !FoundInTime(s, max - 1);
    }
  }

  // ----- the oracle

  /** The oracle counts its wrong guesses and nothing else. */
  lemma {:induction false} OracleAfter(min: int, max: int, secret: int, t: nat)
    ensures After(Oracle(min, max, 0), secret, t) == Oracle(min, max, t)
  {
    if t > 0 { OracleAfter(min, max, secret, t - 1); }
  }

  // ----- the alternating strategy

  lemma {:induction false} LinearPair(min: int, max: int, secret: int, q: nat)
    ensures After(Linear(min, max, false), secret, 2 * q) == Linear(min + q, max - q, false)
    ensures After(Linear(min, max, false), secret, 2 * q + 1) == Linear(min + q, max - q - 1, true)
  {
    var s := Linear(min, max, false);
    if q > 0 {
      LinearPair(min, max, secret, q - 1);
      var before := After(s, secret, 2 * q - 1);
      assert After(s, secret, 2 * q) == Notified(before, GuessOf(before, 0) < secret);
    }
    var here := After(s, secret, 2 * q);
    assert here == Linear(min + q, max - q, false);
    assert After(s, secret, 2 * q + 1) == Notified(here, GuessOf(here, 0) < secret);
  }

  /** Where it stands after `t` turns. */
  lemma LinearAfter(min: int, max: int, secret: int, t: nat)
    ensures After(Linear(min, max, false), secret, t) == Linear(min + t / 2, max - (t + 1) / 2, t % 2 == 1)
  {
    hide After;
    LinearPair(min, max, secret, t / 2);
    assert t == 2 * (t / 2) || t == 2 * (t / 2) + 1;
  }

  /** Of the range, the values not guessed so far are exactly those between its min and its max. */
  lemma LinearUnguessed(min: int, max: int, secret: int, t: nat, v: int)
    requires min <= v <= max && t <= max - min + 1
    ensures var r := After(Linear(min, max, false), secret, t);
            r.Linear? && ((exists k: nat :: k < t && Try(Linear(min, max, false), secret, k) == v)
                          <==> !(r.min <= v <= r.max))
  {
    hide After, Try;
    var s := Linear(min, max, false);
    LinearAfter(min, max, secret, t);
    forall k: nat | k < t && Try(s, secret, k) == v
      ensures !(min + t / 2 <= v <= max - (t + 1) / 2)
    {
      LinearTry(min, max, secret, k);
    }
    if v < min + t / 2 {
      LinearTry(min, max, secret, 2 * (v - min) + 1);
    } else if v > max - (t + 1) / 2 {
      LinearTry(min, max, secret, 2 * (max - v));
    }
  }

  lemma LinearTry(min: int, max: int, secret: int, k: nat)
    ensures Try(Linear(min, max, false), secret, k) == if k % 2 == 1 then min + k / 2 else max - (k + 1) / 2
  {
    hide After;
    LinearAfter(min, max, secret, k);
  }

  /** The turn on which it first guesses the secret. */
  function LinearTurn(min: int, max: int, secret: int): (t: nat)
    requires min <= secret <= max
  {
    if secret - min < max - secret then 2 * (secret - min) + 1 else 2 * (max - secret)
  }

  lemma LinearFindsExactly(min: int, max: int, secret: int, t: nat)
    requires min <= secret <= max && t <= LinearTurn(min, max, secret)
    ensures Try(Linear(min, max, false), secret, t) == secret <==> t == LinearTurn(min, max, secret)
  {
    LinearAfter(min, max, secret, t);
  }
}

/** The players as objects and the game loop over them. */
module GuessGame {
  import opened Machine
  import opened Guess

  /** Which library a player was loaded from. */
  datatype Library = BinaryLibrary | LinearLibrary | OracleLibrary

  /** A loaded library and the structure its init() returned. */
  class Player {
    const library: Library
    var min: int
    var max: int
    var state: bool
    var tries: nat

    function View(): Strategy
      reads this
    {
      match library
      case BinaryLibrary => Binary(min, max)
      case LinearLibrary => Linear(min, max, state)
      case OracleLibrary => Oracle(min, max, tries)
    }

    constructor (library: Library, min: int, max: int)
      ensures this.library == library && this.min == min && this.max == max && !state && tries == 0
    {
      this.library, this.min, this.max, state, tries := library, min, max, false, 0;
    }

    /** guess(); `random` is the oracle's number. Bisecting halves the interval. */
    method MakeGuess(random: int) returns (g: int)
      requires Fits(View())
      ensures g == GuessOf(View(), random)
      ensures library.BinaryLibrary? && 0 <= min < max ==>
                min <= g < max && 0 <= (max - g) - (g - min) <= 1
    {
      match library
      case BinaryLibrary => g := Half(min + max);
      case LinearLibrary => g := if state then min else max;
      case OracleLibrary => g := random;
    }

    /** notify(): told the truth about a wrong guess, a bisecting player keeps the secret in half the interval. */
    method Notify(sign: int)
      requires (sign == 1 || sign == -1) && Fits(View())
      modifies this
      ensures View() == Notified(old(View()), sign == 1)
      ensures forall secret | Brackets(old(View()), secret) && Told(old(Half(min + max)), secret, sign) ::
                Brackets(View(), secret) && max - min <= (old(max - min) + 1) / 2
    {
      match library
      case BinaryLibrary =>
        if sign == 1 {
          min := Half(min + max);
        } else {
          max := Half(min + max);
        }
      case LinearLibrary =>
        state := !state;
        if !state {
          min := min + 1;
        } else {
          max := max - 1;
        }
      case OracleLibrary =>
        tries := tries + 1;
    }
  }

  /** `sign` says truthfully on which side of a wrong guess the secret is. */
  predicate Told(guess: int, secret: int, sign: int)
  {
    if sign == 1 then guess < secret else secret < guess
  }

  function Views(players: seq<Player>): (vs: seq<Strategy>)
    reads players
  {
    seq(|players|, j requires 0 <= j < |players| reads players => players[j].View())
  }

  // ----- round robin

  const CAP: nat := 100

  /** How many of the first `r` rounds among `n` players are turns of player `j`. */
  function Turns(j: nat, r: nat, n: nat): (t: nat)
    requires n > 0
  {
    if r == 0 then 0 else Turns(j, r - 1, n) + (if (r - 1) % n == j then 1 else 0)
  }

  /** The guess made in round `r`, given that all earlier ones were wrong. */
  function RoundGuess(players: seq<Strategy>, secret: int, rnd: nat -> int, r: nat): (g: int)
    requires players != []
  {
    var j := r % |players|;
    GuessOf(After(players[j], secret, Turns(j, r, |players|)), rnd(r))
  }

  lemma TurnsStep(j: nat, r: nat, n: nat, q: nat, e: nat)
    requires e < n && r == q * n + e
    ensures Turns(j, r + 1, n) == Turns(j, r, n) + (if e == j then 1 else 0)
  {
    ModUnique(r, e, q, n);
  }

  lemma {:induction false} TurnsCount(j: nat, q: nat, e: nat, n: nat)
    requires j < n && e < n
    ensures Turns(j, q * n + e, n) == q + (if j < e then 1 else 0)
    decreases q, e
  {
    if e > 0 {
      hide Turns;
      TurnsCount(j, q, e - 1, n);
      TurnsStep(j, q * n + (e - 1), n, q, e - 1);
    } else if q > 0 {
      hide Turns;
      TurnsCount(j, q - 1, n - 1, n);
      assert (q - 1) * n + (n - 1) + 1 == q * n;
      TurnsStep(j, (q - 1) * n + (n - 1), n, q - 1, n - 1);
    }
  }

  /** In round `r` player r mod n takes turn number r div n. */
  lemma TurnOfRound(r: nat, n: nat)
    requires n > 0
    ensures Turns(r % n, r, n) == r / n
  {
    hide Turns;
    var q, e := r / n, r % n;
    assert r == q * n + e;
    TurnsCount(e, q, e, n);
  }

  /** Turn `t` of player `j` is round t * n + j. */
  lemma RoundOfTurn(start: seq<Strategy>, secret: int, rnd: nat -> int, j: nat, t: nat)
    requires j < |start| && !start[j].Oracle?
    ensures RoundGuess(start, secret, rnd, t * |start| + j) == Try(start[j], secret, t)
  {
    hide Turns, After;
    var n := |start|;
    var r := t * n + j;
    ModUnique(r, j, t, n);
    TurnsCount(j, t, j, n);
    KindStays(start[j], secret, t);
  }

  lemma {:induction false} KindStays(s: Strategy, secret: int, t: nat)
    ensures After(s, secret, t).Binary? == s.Binary? && After(s, secret, t).Oracle? == s.Oracle?
  {
    if t > 0 { KindStays(s, secret, t - 1); }
  }

  /** The oracle guesses whatever number it is given. */
  lemma OracleRound(start: seq<Strategy>, secret: int, rnd: nat -> int, j: nat, r: nat)
    requires j < |start| && start[j].Oracle? && r % |start| == j
    ensures RoundGuess(start, secret, rnd, r) == rnd(r)
  {
    KindStays(start[j], secret, Turns(j, r, |start|));
  }

  /** Every player is where its turns among the first `r` rounds have taken it. */
  ghost predicate InStep(players: seq<Strategy>, start: seq<Strategy>, secret: int, r: nat)
  {
    && |players| == |start| > 0
    && forall j :: 0 <= j < |start| ==> players[j] == After(start[j], secret, Turns(j, r, |start|))
  }

  ghost predicate AllWrong(start: seq<Strategy>, secret: int, rnd: nat -> int, r: nat)
    requires start != []
  {
    forall k: nat :: k < r ==> RoundGuess(start, secret, rnd, k) != secret
  }

  lemma NextRound(players: seq<Strategy>, start: seq<Strategy>, secret: int, random: int, r: nat)
    requires InStep(players, start, secret, r)
    requires GuessOf(players[r % |start|], random) != secret
    ensures var j := r % |start|;
            InStep(players[j := Notified(players[j], GuessOf(players[j], random) < secret)], start, secret, r + 1)
  {
    var n, j := |start|, r % |start|;
    assert players[j].Oracle? || GuessOf(players[j], random) == GuessOf(players[j], 0);
  }

  lemma FirstRound(start: seq<Strategy>, secret: int)
    requires start != []
    ensures InStep(start, start, secret, 0)
  {
  }

  lemma GuessInStep(players: seq<Strategy>, start: seq<Strategy>, secret: int, rnd: nat -> int, r: nat)
    requires InStep(players, start, secret, r)
    ensures |players| == |start| > 0
    ensures GuessOf(players[r % |start|], rnd(r)) == RoundGuess(start, secret, rnd, r)
  {
  }

  /** Round `r` is turn `t` of player `j` among `n`. */
  predicate RoundIs(r: nat, n: nat, t: nat, j: nat)
  {
    j < n && r == t * n + j
  }

  lemma EveryRoundIs(r: nat, n: nat)
    requires n > 0
    ensures RoundIs(r, n, r / n, r % n) && r / n <= r
  {
    assert r == (r / n) * n + r % n;
    EarlierRounds(r / n, n, r % n, r / n);
  }

  /** In a game without a right guess so far, no earlier guess of a player was right. */
  lemma EarlierWrong(start: seq<Strategy>, secret: int, rnd: nat -> int, r: nat, t: nat, j: nat, k: nat)
    requires j < |start| && !start[j].Oracle? && RoundIs(r, |start|, t, j) && k < t
    requires AllWrong(start, secret, rnd, r)
    ensures Try(start[j], secret, k) != secret
  {
    hide Try, RoundGuess;
    RoundOfTurn(start, secret, rnd, j, k);
    EarlierRounds(t, |start|, j, k);
  }

  /** The player whose turn it is can compute its guess within `int`. */
  lemma TurnFits(players: seq<Strategy>, start: seq<Strategy>, secret: int, rnd: nat -> int, r: nat)
    requires InStep(players, start, secret, r) && AllWrong(start, secret, rnd, r) && r < CAP
    requires Defined(start[r % |start|], secret, CAP)
    ensures Fits(players[r % |start|])
  {
    hide Turns, After, Fits, RoundGuess, Try, RoundIs, AllWrong;
    var n := |start|;
    var j, t := r % n, r / n;
    EveryRoundIs(r, n);
    TurnOfRound(r, n);
    KindStays(start[j], secret, t);
    if start[j].Oracle? {
      OracleFits(players[j]);
    } else {
      forall k: nat | k < t
        ensures Try(start[j], secret, k) != secret
      {
        EarlierWrong(start, secret, rnd, r, t, j, k);
      }
    }
  }

  /** A player's earlier turns are in earlier rounds, and it has had no more turns than there were rounds. */
  lemma EarlierRounds(t: nat, n: nat, j: nat, k: nat)
    requires j < n && k <= t
    ensures k < t ==> k * n + j < t * n + j
    ensures t <= t * n + j
  {
    MulMonotone(1, n, t);
    assert t * n == n * t;
    if k < t {
      MulMonotone(k + 1, t, n);
      assert (k + 1) * n == k * n + n;
    }
  }

  lemma OracleFits(s: Strategy)
    requires s.Oracle?
    ensures Fits(s)
  {
  }

  /**
    gameloop, lines 90-115. The secret and the oracle's numbers are parameters. `rounds` is what
    the function returns, `correct` and `failed` are the two verdicts it prints; no player may
    leave `int` on a turn that the game can reach.
   */
  method GameLoop(secret: int, players: seq<Player>, rnd: nat -> int) returns (rounds: nat, correct: bool, failed: bool)
    requires players != [] && forall i, j :: 0 <= i < j < |players| ==> players[i] != players[j]
    requires forall j :: 0 <= j < |players| ==> Defined(players[j].View(), secret, CAP)
    modifies players
    ensures 0 < rounds <= CAP
    ensures AllWrong(old(Views(players)), secret, rnd, rounds - 1)
    ensures correct <==> RoundGuess(old(Views(players)), secret, rnd, rounds - 1) == secret
    ensures !correct ==> rounds == CAP
    ensures failed <==> AllWrong(old(Views(players)), secret, rnd, CAP - 1)
    ensures correct && failed <==>
              rounds == CAP && RoundGuess(old(Views(players)), secret, rnd, CAP - 1) == secret
    ensures forall b: nat | b < |players| && Brackets(old(Views(players))[b], secret) ::
              WinningRounds(old(Views(players)), b) <= CAP ==>
                correct && rounds <= WinningRounds(old(Views(players)), b)
  {
    hide InStep, Defined, Brackets, WinningRounds, Fits, RoundGuess;
    ghost var start := Views(players);
    FirstRound(start, secret);
    rounds, correct := 0, false;
    while !correct && rounds < CAP
      invariant rounds <= CAP && (rounds == 0 ==> !correct)
      invariant !correct ==> InStep(Views(players), start, secret, rounds)
      invariant AllWrong(start, secret, rnd, if correct then rounds - 1 else rounds)
      invariant correct ==> RoundGuess(start, secret, rnd, rounds - 1) == secret
      decreases CAP - rounds
    {
      var index := rounds % |players|;
      TurnFits(Views(players), start, secret, rnd, rounds);
      GuessInStep(Views(players), start, secret, rnd, rounds);
      var guess := players[index].MakeGuess(rnd(rounds));
      if guess != secret {
        NextRound(Views(players), start, secret, rnd(rounds), rounds);
        ghost var before := Views(players);
        players[index].Notify(if guess < secret then 1 else -1);
        assert Views(players) == before[index := Notified(before[index], guess < secret)];
      } else {
        correct := true;
      }
      rounds := rounds + 1;
    }
    failed := rounds >= CAP;
    assert !failed ==> RoundGuess(start, secret, rnd, rounds - 1) == secret;
    forall b: nat | b < |start| && Brackets(start[b], secret) && WinningRounds(start, b) <= CAP
      ensures correct && rounds <= WinningRounds(start, b)
    {
      var r := BisectingPlayerWins(start, secret, rnd, b);
    }
  }

  // ----- what the game guarantees

  /** n (1 + ceil(log2(width))) for the bisecting player `b` among n. */
  function WinningRounds(start: seq<Strategy>, b: nat): (r: int)
    requires b < |start|
  {
    var width := start[b].max - start[b].min;
    |start| * (1 + CeilLog2(if width > 0 then width else 0))
  }

  /**
    A bisecting player that brackets the secret guesses it within that many rounds, and within
    `int` if its range is a safe one.
   */
  lemma BisectingPlayerWins(start: seq<Strategy>, secret: int, rnd: nat -> int, b: nat) returns (r: nat)
    requires b < |start| && Brackets(start[b], secret)
    ensures r < WinningRounds(start, b) && RoundGuess(start, secret, rnd, r) == secret
    ensures r % |start| == b
    ensures SafeRange(start[b].min, start[b].max) ==> Finds(start[b], secret, r / |start|)
  {
    hide CeilLog2, Turns, Half, Finds, RoundGuess, Try, SafeRange;
    var n, turns := |start|, 1 + CeilLog2(start[b].max - start[b].min);
    var t := BisectionFinds(start[b], secret);
    r := t * n + b;
    RoundOfTurn(start, secret, rnd, b, t);
    assert r % n == b && r / n == t by { ModUnique(r, b, t, n); DivUnique(r, b, t, n); }
    assert r < n * turns by { MulMonotone(t + 1, turns, n); assert (t + 1) * n == t * n + n; }
  }

  lemma DivUnique(a: int, r: int, q: int, n: nat)
    requires 0 <= r < n && a == q * n + r
    ensures a / n == q
  {
    ModUnique(a, r, q, n);
    assert (a / n - q) * n == 0;
  }

  /** In a game on one safe range with the secret inside, every player stays within `int`. */
  lemma SafeGame(players: seq<Strategy>, min: int, max: int, secret: int, j: nat)
    requires min <= secret <= max && SafeRange(min, max) && j < |players|
    requires players[j] in {Binary(min, max), Linear(min, max, false), Oracle(min, max, 0)}
    ensures Defined(players[j], secret, CAP)
  {
    if players[j].Binary? {
      SafeRangeFits(players[j], secret, CAP);
    } else {
      forall t: nat ensures Fits(After(players[j], secret, t)) { KindStays(players[j], secret, t); }
    }
  }

  /**
    The alternating strategy alone: the first right guess is in round 1 + LinearTurn, so its
    first `r` rounds are all wrong exactly when `r` does not exceed LinearTurn.
   */
  lemma AlternatingAlone(min: int, max: int, secret: int, rnd: nat -> int, r: nat)
    requires min <= secret <= max
    ensures AllWrong([Linear(min, max, false)], secret, rnd, r) <==> r <= LinearTurn(min, max, secret)
  {
    hide RoundGuess, Try, LinearTurn;
    var start := [Linear(min, max, false)];
    var hit := LinearTurn(min, max, secret);
    forall k: nat | k <= hit
      ensures RoundGuess(start, secret, rnd, k) == secret <==> k == hit
    {
      RoundOfTurn(start, secret, rnd, 0, k);
      LinearFindsExactly(min, max, secret, k);
    }
    assert RoundGuess(start, secret, rnd, hit) == secret;
  }

  /**
    The game of guess.c, range 0 to 100, with the alternating strategy alone. "Failed!" is
    printed exactly for the secrets 49 and 50: 50 is never guessed, and 49 is guessed in round
    100, where "Correct!" is printed as well.
   */
  lemma AlternatingAloneFailsExactly(secret: int, rnd: nat -> int)
    requires 0 <= secret < 100
    ensures var start := [Linear(0, 100, false)];
            && (AllWrong(start, secret, rnd, CAP - 1) <==> secret == 49 || secret == 50)
            && (AllWrong(start, secret, rnd, CAP) <==> secret == 50)
  {
    AlternatingAlone(0, 100, secret, rnd, CAP - 1);
    AlternatingAlone(0, 100, secret, rnd, CAP);
  }
}
