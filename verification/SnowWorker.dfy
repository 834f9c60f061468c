/** The id generator of breUtils/uuid/uuid.hpp, with the readings of the clock as inputs. */
module SnowIds {
  import opened Bits

  /** `IdGenOptions`; the widths of its fields do not matter. */
  datatype Options = Options(baseTime: nat, seqBitLength: nat, maxSeqNumber: nat, minSeqNumber: nat)

  datatype Config = Config(baseTime: nat, bits: nat, max: nat, min: nat)

  datatype Result<+T> = Invalid | Valid(value: T)

  /** `setOptions`, when the clock shows `now` milliseconds. */
  function Accept(o: Options, now: int): Result<Config> {
    var limit := Pow2(o.seqBitLength) - 1;
    var max := if o.maxSeqNumber == 0 then limit else o.maxSeqNumber;
    if o.baseTime < 631123200000 || o.baseTime > now then Invalid
    else if o.seqBitLength < 2 || o.seqBitLength > 21 then Invalid
    else if o.maxSeqNumber > limit then Invalid
    else if o.minSeqNumber < 5 || o.minSeqNumber > max then Invalid
    else Valid(Config(o.baseTime, o.seqBitLength, max, o.minSeqNumber))
  }

  predicate Usable(c: Config) {
    3 <= c.bits <= 21 && 5 <= c.min <= c.max < Pow2(c.bits)
  }

  /** What is accepted leaves room for sequence numbers; two bits, although allowed, never do. */
  lemma AcceptedIsUsable(o: Options, now: int)
    ensures Accept(o, now).Valid? ==> Usable(Accept(o, now).value)
    ensures o.seqBitLength == 2 ==> Accept(o, now) == Invalid
  {
    assert Pow2(2) == 4;
  }

  /** Which options are accepted, and with which limits: a greatest number of 0 stands for the greatest possible. */
  lemma AcceptedWhen(o: Options, now: int)
    ensures
      var greatest := if o.maxSeqNumber == 0 then Pow2(o.seqBitLength) - 1 else o.maxSeqNumber;
      && (Accept(o, now).Valid? <==>
            && 631123200000 <= o.baseTime <= now && 2 <= o.seqBitLength <= 21
            && o.maxSeqNumber <= Pow2(o.seqBitLength) - 1 && 5 <= o.minSeqNumber <= greatest)
      && (Accept(o, now).Valid? ==>
            Accept(o, now).value == Config(o.baseTime, o.seqBitLength, greatest, o.minSeqNumber))
  {
  }

  /** The default options, with the numbers from 5 to 20 beside 8 bits. */
  lemma DefaultsAreAccepted(now: int)
    requires now >= 631123200000
    ensures Accept(Options(631123200000, 8, 20, 5), now) == Valid(Config(631123200000, 8, 20, 5))
  {
    assert Pow2(3) == 8;
    assert Pow2(6) == 64;
    assert Pow2(8) == 256;
  }

  /** `_lastTimeTick` and `_currentSeqNumber`; the latter is the number of the next id. */
  datatype State = State(tick: nat, next: nat)

  function Initial(c: Config): State {
    State(0, c.min)
  }

  /** What `Next` makes of the state before it takes a number, when the clock shows `tick`. */
  function Advance(c: Config, s: State, tick: int): State {
    if tick > s.tick then State(tick, c.min)
    else if s.next > c.max then State(s.tick + 1, c.min)
    else s
  }

  function Step(c: Config, s: State, tick: int): State {
    var a := Advance(c, s, tick);
    State(a.tick, a.next + 1)
  }

  /** The state after the clock readings `ticks`. */
  function After(c: Config, ticks: seq<int>): State {
    if ticks == [] then Initial(c) else Step(c, After(c, ticks[..|ticks| - 1]), ticks[|ticks| - 1])
  }

  const UINT64: nat := 0x1_0000_0000_0000_0000
  const INT64_MAX: nat := 0x7FFF_FFFF_FFFF_FFFF

  /** `(tick << bits) | seq` on 64 bits, read as a signed number. */
  function Id(c: Config, tick: nat, seqNumber: nat): int {
    var id := Or(tick * Pow2(c.bits) % UINT64, seqNumber);
    if id > INT64_MAX then id - UINT64 else id
  }

  /** The id of the last of the clock readings. */
  function LastId(c: Config, ticks: seq<int>): int
    requires ticks != []
  {
    var s := After(c, ticks);
    Id(c, s.tick, s.next - 1)
  }

  /** The tick still fits beside the sequence number in a positive id. */
  predicate Fits(c: Config, tick: nat) {
    (tick + 1) * Pow2(c.bits) <= INT64_MAX + 1
  }

  // ---------- the object ----------

  class SnowWorker {
    const config: Config
    var lastTimeTick: nat
    var currentSeqNumber: nat

    ghost function View(): State
      reads this
    {
      State(lastTimeTick, currentSeqNumber)
    }

    constructor (c: Config)
      requires Usable(c)
      ensures config == c && View() == Initial(c)
    {
      config := c;
      lastTimeTick := 0;
      currentSeqNumber := c.min;
    }

    method Next(tick: int) returns (id: int)
      modifies this
      ensures View() == Step(config, old(View()), tick)
      ensures View().next > 0 && id == Id(config, View().tick, View().next - 1)
    {
      if tick > lastTimeTick {
        lastTimeTick := tick;
        currentSeqNumber := config.min;
      } else if currentSeqNumber > config.max {
        lastTimeTick := lastTimeTick + 1;
        currentSeqNumber := config.min;
      }
      id := CalculateId();
    }

    method CalculateId() returns (id: int)
      modifies this`currentSeqNumber
      ensures currentSeqNumber == old(currentSeqNumber) + 1
      ensures id == Id(config, lastTimeTick, old(currentSeqNumber))
    {
      id := Or(lastTimeTick * Pow2(config.bits) % UINT64, currentSeqNumber);
      if id > INT64_MAX {
        id := id - UINT64;
      }
      currentSeqNumber := currentSeqNumber + 1;
    }
  }

  /** `SnowWorker(options)`, which throws on options it does not accept. */
  method Make(o: Options, now: int) returns (r: Result<SnowWorker>)
    ensures r.Valid? == Accept(o, now).Valid?
    ensures r.Valid? ==> fresh(r.value) && r.value.config == Accept(o, now).value
    ensures r.Valid? ==> r.value.View() == Initial(r.value.config)
  {
    AcceptedIsUsable(o, now);
    match Accept(o, now) {
      case Invalid => r := Invalid;
      case Valid(c) =>
        var worker := new SnowWorker(c);
        r := Valid(worker);
    }
  }

  // ---------- its ids ----------

  lemma {:induction false} NumbersInRange(c: Config, ticks: seq<int>)
    requires Usable(c)
    ensures c.min <= After(c, ticks).next <= c.max + 1
    ensures ticks != [] ==> After(c, ticks).next > c.min
  {
    if ticks != [] {
      NumbersInRange(c, ticks[..|ticks| - 1]);
    }
  }

  /** The tick that an id shows, above the lowest bits. */
  function TickOf(c: Config, id: int): int {
    id / Pow2(c.bits)
  }

  /** The sequence number that an id shows, in the lowest bits. */
  function NumberOf(c: Config, id: int): int {
    id % Pow2(c.bits)
  }

  lemma IdAdds(c: Config, tick: nat, number: nat, product: nat)
    requires number < Pow2(c.bits) && product == tick * Pow2(c.bits) < UINT64
    ensures Id(c, tick, number) == if product + number > INT64_MAX then product + number - UINT64 else product + number
  {
    OrAdds(tick, number, c.bits);
    hide Or, Pow2;
    assert Or(product, number) == product + number;
    SmallRemainder(product, UINT64);
  }

  lemma SmallRemainder(n: nat, m: nat)
    requires n < m
    ensures n % m == n
  {
  }

  /** The tick and the sequence number can be read off an id. */
  lemma IdParts(c: Config, tick: nat, number: nat)
    requires Usable(c) && number <= c.max && Fits(c, tick)
    ensures
      var id := Id(c, tick, number);
      0 <= id == tick * Pow2(c.bits) + number <= INT64_MAX && TickOf(c, id) == tick && NumberOf(c, id) == number
  {
    var p := Pow2(c.bits);
    assert (tick + 1) * p == tick * p + p;
    var id := tick * p + number;
    IdAdds(c, tick, number, tick * p);
    hide Id, Or, Pow2;
    DivModUnique(id, p, tick, number);
  }

  lemma DivModUnique(n: nat, p: nat, q: nat, r: nat)
    requires n == q * p + r && r < p
    ensures n / p == q && n % p == r
  {
    var q', r' := n / p, n % p;
    assert n == p * q' + r';
    if q < q' {
      MulGrows(q, q', p);
    } else if q' < q {
      MulGrows(q', q, p);
    }
  }

  lemma MulGrows(a: nat, b: nat, p: nat)
    requires a < b
    ensures a * p + p <= b * p
  {
    assert b * p == (b - a - 1) * p + (a * p + p);
  }

  /** One call moves on to a later tick, or to the next number of the same tick. */
  lemma StepMovesOn(c: Config, s: State, tick: int)
    requires Usable(c) && c.min <= s.next <= c.max + 1
    ensures
      var s' := Step(c, s, tick);
      s'.tick > s.tick || (s'.tick == s.tick && s'.next == s.next + 1)
  {
  }

  lemma LaterIsGreater(c: Config, s: State, t: State)
    requires Usable(c) && Fits(c, t.tick)
    requires 0 < s.next <= c.max + 1 && 0 < t.next <= c.max + 1
    requires s.tick < t.tick || (s.tick == t.tick && s.next < t.next)
    ensures Id(c, s.tick, s.next - 1) < Id(c, t.tick, t.next - 1)
  {
    hide Id, Pow2;
    var p := Pow2(c.bits);
    if s.tick < t.tick {
      MulGrows(s.tick, t.tick, p);
      MulMonotonic(s.tick + 1, t.tick + 1, p);
    }
    assert Fits(c, s.tick);
    hide Fits;
    IdParts(c, s.tick, s.next - 1);
    IdParts(c, t.tick, t.next - 1);
  }

  lemma {:induction false} LaterCallsMoveOn(c: Config, ticks: seq<int>, i: nat)
    requires Usable(c) && 0 < i < |ticks|
    ensures
      var s, t := After(c, ticks[..i]), After(c, ticks);
      s.tick < t.tick || (s.tick == t.tick && s.next < t.next)
    decreases |ticks|
  {
    var front := ticks[..|ticks| - 1];
    NumbersInRange(c, front);
    StepMovesOn(c, After(c, front), ticks[|ticks| - 1]);
    if i < |front| {
      assert front[..i] == ticks[..i];
      LaterCallsMoveOn(c, front, i);
    } else {
      assert front == ticks[..i];
    }
  }

  /** Whatever the clock shows, forwards or backwards, a later id is greater than an earlier one, as long as the
      tick fits; so no id comes twice. */
  lemma IdsIncrease(c: Config, ticks: seq<int>, i: nat)
    requires Usable(c) && 0 < i < |ticks| && Fits(c, After(c, ticks).tick)
    ensures LastId(c, ticks[..i]) < LastId(c, ticks) <= INT64_MAX
  {
    hide Fits, Id, Pow2, Or;
    NumbersInRange(c, ticks);
    NumbersInRange(c, ticks[..i]);
    LaterCallsMoveOn(c, ticks, i);
    var s, t := After(c, ticks[..i]), After(c, ticks);
    assert LastId(c, ticks[..i]) == Id(c, s.tick, s.next - 1) && LastId(c, ticks) == Id(c, t.tick, t.next - 1);
    hide After, LastId;
    LaterIsGreater(c, s, t);
    IdParts(c, t.tick, t.next - 1);
  }

  /** The tick of the last id and its number, in the range of the options, can be told from the id alone. */
  lemma IdIsReadable(c: Config, ticks: seq<int>)
    requires Usable(c) && ticks != [] && Fits(c, After(c, ticks).tick)
    ensures LastId(c, ticks) >= 0
    ensures TickOf(c, LastId(c, ticks)) == After(c, ticks).tick
    ensures c.min <= NumberOf(c, LastId(c, ticks)) == After(c, ticks).next - 1 <= c.max
  {
    NumbersInRange(c, ticks);
    hide After, Id, Pow2, Fits, TickOf, NumberOf;
    IdParts(c, After(c, ticks).tick, After(c, ticks).next - 1);
  }

  /** The greatest reading of the clock, or 0. */
  function Greatest(ticks: seq<int>): nat {
    if ticks == [] then 0
    else
      var before, last := Greatest(ticks[..|ticks| - 1]), ticks[|ticks| - 1];
      if last > before then last else before
  }

  /** The numbers used in the ticks after `from`, those of the full ticks and those of the present one. */
  function Used(c: Config, s: State, from: int): int {
    (s.tick - from) * (c.max - c.min + 1) + (s.next - c.min)
  }

  /** One call uses one number; a clock that moves on only makes the count smaller. */
  lemma UsedGrows(c: Config, s: State, tick: int, from: nat, from': nat)
    requires Usable(c) && c.min <= s.next <= c.max + 1 && from <= s.tick
    requires from' == if tick > from then tick else from
    ensures from' <= Step(c, s, tick).tick
    ensures Used(c, Step(c, s, tick), from') <= Used(c, s, from) + 1
    ensures from' == from && tick <= s.tick ==> Used(c, Step(c, s, tick), from') == Used(c, s, from) + 1
  {
    hide Pow2;
    var width, lag, lag' := c.max - c.min + 1, s.tick - from, Step(c, s, tick).tick - from';
    assert (lag + 1) * width == lag * width + width;
    if tick > s.tick {
      MulMonotonic(0, lag, width);
    } else if s.next > c.max {
      MulMonotonic(lag', lag + 1, width);
    } else {
      MulMonotonic(lag', lag, width);
    }
  }

  /** Numbers used so far, counted from the greatest reading on, never outnumber the calls. */
  lemma {:induction false} NumbersUsed(c: Config, ticks: seq<int>)
    requires Usable(c)
    ensures
      After(c, ticks).tick >= Greatest(ticks) && Used(c, After(c, ticks), Greatest(ticks)) <= |ticks|
  {
    if ticks != [] {
      var front, last := ticks[..|ticks| - 1], ticks[|ticks| - 1];
      NumbersUsed(c, front);
      NumbersInRange(c, front);
      UsedGrows(c, After(c, front), last, Greatest(front), Greatest(ticks));
      hide Used, Step, Pow2;
    } else {
      assert Used(c, Initial(c), 0) == 0;
    }
  }

  lemma MulMonotonic(a: int, b: int, p: nat)
    requires a <= b
    ensures a * p <= b * p
  {
    assert (b - a) * p >= 0;
  }

  /** When more ids are drawn than a millisecond has numbers, the ticks run ahead of the clock, but never by more
      than one for each full set of numbers used. */
  lemma TickDrift(c: Config, ticks: seq<int>)
    requires Usable(c) && ticks != []
    ensures
      var lag := After(c, ticks).tick - Greatest(ticks);
      0 <= lag <= (|ticks| - 1) / (c.max - c.min + 1)
  {
    NumbersUsed(c, ticks);
    NumbersInRange(c, ticks);
    var lag, width := After(c, ticks).tick - Greatest(ticks), c.max - c.min + 1;
    assert lag * width <= |ticks| - 1;
    hide After, Greatest, Used;
    QuotientBound(|ticks| - 1, width, lag);
  }

  lemma QuotientBound(n: nat, p: nat, q: int)
    requires p > 0 && q * p <= n
    ensures q <= n / p
  {
    if q > n / p {
      MulMonotonic(n / p + 1, q, p);
    }
  }

  lemma {:induction false} StandingStill(c: Config, ticks: seq<int>, t: int)
    requires Usable(c) && ticks != [] && forall i :: 0 <= i < |ticks| ==> ticks[i] == t
    ensures Greatest(ticks) == (if t > 0 then t else 0) <= After(c, ticks).tick
    ensures Used(c, After(c, ticks), Greatest(ticks)) == |ticks|
  {
    var front := ticks[..|ticks| - 1];
    if front != [] {
      StandingStill(c, front, t);
      NumbersInRange(c, front);
      UsedGrows(c, After(c, front), t, Greatest(front), Greatest(ticks));
      hide Used, Step, Pow2;
    } else {
      assert After(c, front) == Initial(c) && Greatest(front) == 0;
      assert Used(c, After(c, ticks), Greatest(ticks)) == 1;
    }
  }

  /** The bound is reached: a clock that stands still runs behind by one tick for each full set of numbers. */
  lemma DriftIsReached(c: Config, ticks: seq<int>, t: int)
    requires Usable(c) && ticks != [] && forall i :: 0 <= i < |ticks| ==> ticks[i] == t
    ensures After(c, ticks).tick - Greatest(ticks) == (|ticks| - 1) / (c.max - c.min + 1)
  {
    StandingStill(c, ticks, t);
    NumbersInRange(c, ticks);
    var s, width := After(c, ticks), c.max - c.min + 1;
    var lag := s.tick - Greatest(ticks);
    assert lag * width + (s.next - c.min) == |ticks|;
    hide After, Greatest, Used, Pow2;
    DivModUnique(|ticks| - 1, width, lag, s.next - c.min - 1);
  }

  lemma {:induction false} Pow2Splits(a: nat, b: nat)
    ensures Pow2(a + b) == Pow2(a) * Pow2(b)
  {
    if a > 0 {
      Pow2Splits(a - 1, b);
    }
  }

  /** The ticks that fit are those of 63 - bits bits, and the first one that does not fit makes the id negative. */
  lemma FitsMeans(c: Config, tick: nat, number: nat)
    requires Usable(c) && number <= c.max
    ensures Fits(c, tick) <==> tick < Pow2(63 - c.bits)
    ensures tick == Pow2(63 - c.bits) ==> Id(c, tick, number) == number - 9223372036854775808 < 0
  {
    var p, q := Pow2(c.bits), Pow2(63 - c.bits);
    TicksBelow(c);
    hide Pow2, Or, Id;
    if tick == q {
      IdAdds(c, tick, number, INT64_MAX + 1);
    }
    MulOrder(tick + 1, q, p);
  }

  lemma MulOrder(a: nat, b: nat, p: nat)
    requires p > 0
    ensures a <= b <==> a * p <= b * p
  {
    if a <= b {
      MulMonotonic(a, b, p);
    } else {
      MulGrows(b, a, p);
    }
  }

  lemma TicksBelow(c: Config)
    requires Usable(c)
    ensures Pow2(63 - c.bits) * Pow2(c.bits) == INT64_MAX + 1
  {
    PowersOf2();
    Pow2Splits(63 - c.bits, c.bits);
  }

  lemma PowersOf2()
    ensures Pow2(21) == 0x20_0000 && Pow2(63) == INT64_MAX + 1
  {
    assert Pow2(1) == 2;
    hide Pow2;
    Pow2Splits(1, 1);
    Pow2Splits(2, 1);
    Pow2Splits(3, 3);
    Pow2Splits(6, 1);
    assert Pow2(7) == 128;
    Pow2Splits(7, 7);
    assert Pow2(14) == 0x4000;
    Pow2Splits(14, 7);
    assert Pow2(21) == 0x20_0000;
    Pow2Splits(21, 21);
    assert Pow2(42) == 0x400_0000_0000;
    Pow2Splits(42, 21);
  }
}
