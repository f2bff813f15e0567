/** crates/ostrom-core/src/run_caps.rs, lines 86-111 and 222-233: durations such as `90m` in whole
    seconds of a 64-bit counter, and their printed form. */
module RunCaps {
  import opened Wrappers

  const LIMIT := 0x1_0000_0000_0000_0000

  predicate IsDigit(c: char) { '0' <= c <= '9' }

  predicate AllDigits(s: string) {
    forall i :: 0 <= i < |s| ==> IsDigit(s[i])
  }

  // The number that decimal digits stand for.
  function Number(digits: string): nat
    requires AllDigits(digits)
  {
    if digits == "" then 0
    else 10 * Number(digits[..|digits| - 1]) + (digits[|digits| - 1] - '0') as nat
  }

  function Decimal(n: nat): (s: string)
    ensures AllDigits(s) && s != "" && Number(s) == n
  {
    var last := ['0' + (n % 10) as char];
    if n < 10 then last
    else
      var s := Decimal(n / 10) + last;
      assert s[..|s| - 1] == Decimal(n / 10);
      s
  }

  function DigitCount(value: string): (split: nat)
    ensures split <= |value| && AllDigits(value[..split])
    ensures split < |value| ==> !IsDigit(value[split])
  {
    if value == "" || !IsDigit(value[0]) then 0 else 1 + DigitCount(value[1..])
  }

  function Multiplier(unit: string): Option<nat> {
    if unit == "s" then Some(1)
    else if unit == "m" then Some(60)
    else if unit == "h" then Some(3_600)
    else if unit == "d" then Some(86_400)
    else None
  }

  function Parse(value: string): Option<nat> {
    var split := DigitCount(value);
    if split == 0 || split == |value| then None
    else if Number(value[..split]) >= LIMIT then None
    else
      match Multiplier(value[split..])
      case None => None
      case Some(multiplier) =>
        var seconds := Number(value[..split]) * multiplier;
        if 0 < seconds < LIMIT then Some(seconds) else None
  }

  predicate Whole(seconds: nat, size: nat)
    requires size > 0
  {
    seconds >= size && seconds / size * size == seconds
  }

  const UNITS: seq<(string, nat)> := [("d", 86_400), ("h", 3_600), ("m", 60)]

  function RenderIn(units: seq<(string, nat)>, seconds: nat): string
    requires forall i :: 0 <= i < |units| ==> units[i].1 > 0
  {
    if units == [] then Decimal(seconds) + "s"
    else
      var (unit, size) := units[0];
      if Whole(seconds, size) then Decimal(seconds / size) + unit
      else RenderIn(units[1..], seconds)
  }

  function Render(seconds: nat): string {
    RenderIn(UNITS, seconds)
  }

  // `value` is written as digits and a unit.
  ghost predicate Spells(value: string, digits: string, unit: string, seconds: nat) {
    && value == digits + unit && digits != "" && AllDigits(digits)
    && Multiplier(unit).Some? && Number(digits) * Multiplier(unit).value == seconds
  }

  lemma SplitsOnce(value: string, digits: string, unit: string)
    requires value == digits + unit && AllDigits(digits) && unit != "" && !IsDigit(unit[0])
    ensures value[..DigitCount(value)] == digits && value[DigitCount(value)..] == unit
  {
    var split := DigitCount(value);
    assert forall i :: 0 <= i < |digits| ==> value[i] == digits[i];
    assert value[|digits|] == unit[0];
    assert forall i :: 0 <= i < split ==> value[..split][i] == value[i];
  }

  /** A duration parses exactly when it is digits followed by a unit and the number of seconds is
      positive and fits the counter. */
  lemma ParsesExactly(value: string, seconds: nat)
    ensures Parse(value) == Some(seconds) <==>
            0 < seconds < LIMIT && exists digits, unit :: Spells(value, digits, unit, seconds)
  {
    if Parse(value) == Some(seconds) {
      var split := DigitCount(value);
      assert Spells(value, value[..split], value[split..], seconds);
    }
    if 0 < seconds < LIMIT && exists digits, unit :: Spells(value, digits, unit, seconds) {
      var digits, unit :| Spells(value, digits, unit, seconds);
      SplitsOnce(value, digits, unit);
    }
  }

  // The unit a duration is rendered in, and how many of it.
  function UnitOf(seconds: nat): (string, nat) {
    if Whole(seconds, 86_400) then ("d", seconds / 86_400)
    else if Whole(seconds, 3_600) then ("h", seconds / 3_600)
    else if Whole(seconds, 60) then ("m", seconds / 60)
    else ("s", seconds)
  }

  lemma RenderIs(seconds: nat)
    ensures Render(seconds) == Decimal(UnitOf(seconds).1) + UnitOf(seconds).0
  {
    var two: seq<(string, nat)> := [("h", 3_600), ("m", 60)];
    var one: seq<(string, nat)> := [("m", 60)];
    assert UNITS[1..] == two && two[1..] == one && one[1..] == [];
    assert RenderIn([], seconds) == Decimal(seconds) + "s";
    assert RenderIn(one, seconds) ==
           if Whole(seconds, 60) then Decimal(seconds / 60) + "m" else RenderIn([], seconds);
    assert RenderIn(two, seconds) ==
           if Whole(seconds, 3_600) then Decimal(seconds / 3_600) + "h" else RenderIn(one, seconds);
  }

  lemma RenderSpells(seconds: nat)
    ensures Spells(Render(seconds), Decimal(UnitOf(seconds).1), UnitOf(seconds).0, seconds)
  {
    RenderIs(seconds);
  }

  /** Parsing undoes rendering exactly for the positive numbers of the counter. */
  lemma ParseUndoesRender(seconds: nat)
    ensures Parse(Render(seconds)) == Some(seconds) <==> 0 < seconds < LIMIT
  {
    RenderSpells(seconds);
    ParsesExactly(Render(seconds), seconds);
  }

  /** No way to write the duration has a smaller number than the rendered form. */
  lemma RenderIsLeast(value: string, digits: string, unit: string, seconds: nat)
    requires seconds > 0 && Spells(value, digits, unit, seconds)
    ensures exists least, largest ::
              Spells(Render(seconds), least, largest, seconds) && Number(least) <= Number(digits)
  {
    RenderSpells(seconds);
    LeastAmount(Number(digits), Multiplier(unit).value, seconds);
  }

  lemma LeastAmount(amount: nat, size: nat, seconds: nat)
    requires size in {1, 60, 3_600, 86_400} && amount * size == seconds
    ensures UnitOf(seconds).1 <= amount
  {
    if size == 86_400 {
      assert Whole(seconds, 86_400) || seconds == 0;
    } else if size == 3_600 {
      assert Whole(seconds, 3_600) || seconds == 0;
    } else if size == 60 {
      assert Whole(seconds, 60) || seconds == 0;
    }
  }

  lemma ParseOf(digits: string, unit: string)
    requires AllDigits(digits) && digits != "" && Multiplier(unit).Some?
    ensures Parse(digits + unit) ==
            if Number(digits) >= LIMIT then None
            else
              var seconds := Number(digits) * Multiplier(unit).value;
              if 0 < seconds < LIMIT then Some(seconds) else None
  {
    SplitsOnce(digits + unit, digits, unit);
  }

  lemma UnitIs(n: nat, unit: string, size: nat)
    requires n > 0 && Multiplier(unit) == Some(size) && size in {1, 60, 3_600, 86_400}
    ensures Parse(Decimal(n) + unit) == if size * n < LIMIT then Some(size * n) else None
  {
    ParseOf(Decimal(n), unit);
  }

  /** A number followed by a unit is that many seconds, minutes, hours or days, while the counter holds it. */
  lemma UnitsExactly(n: nat)
    requires n > 0
    ensures Parse(Decimal(n) + "s") == if n < LIMIT then Some(n) else None
    ensures Parse(Decimal(n) + "m") == if 60 * n < LIMIT then Some(60 * n) else None
    ensures Parse(Decimal(n) + "h") == if 3_600 * n < LIMIT then Some(3_600 * n) else None
    ensures Parse(Decimal(n) + "d") == if 86_400 * n < LIMIT then Some(86_400 * n) else None
  {
    UnitIs(n, "s", 1);
    UnitIs(n, "m", 60);
    UnitIs(n, "h", 3_600);
    UnitIs(n, "d", 86_400);
  }
}
