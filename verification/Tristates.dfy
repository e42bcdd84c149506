/**
 The three-valued logic of Kconfig.  As in `expr.h`, a tristate is one of the
 numbers no = 0, mod = 1 and yes = 2, so that AND is the minimum, OR the
 maximum and NOT the distance from 2.
 */
module Tristates {
  type Tristate = t: int | 0 <= t <= 2

  const NO: Tristate := 0
  const MOD: Tristate := 1
  const YES: Tristate := 2

  function And(a: Tristate, b: Tristate): Tristate {
    if a < b then a else b
  }

  function Or(a: Tristate, b: Tristate): Tristate {
    if a > b then a else b
  }

  function Not(a: Tristate): Tristate {
    2 - a
  }

  /** The letter a value is printed as. */
  function Letter(t: Tristate): string {
    if t == NO then "n" else if t == MOD then "m" else "y"
  }

  /** NO or YES, for a test that cannot be `m`. */
  function Truth(b: bool): Tristate {
    if b then YES else NO
  }
}
