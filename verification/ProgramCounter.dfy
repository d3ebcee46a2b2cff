/**
 The program counter and its wrap-around at the end of flash.
 */
module ProgramCounter {
  import Bitwise

  /** The adjustment applied after every change of the program counter: one addition, one subtraction. */
  function AdjustToMax(pc: int, pcMax: int): int {
    var up := if pc < 0 then pcMax + pc else pc;
    if up >= pcMax then up - pcMax else up
  }

  /** Congruence modulo pcMax, with the quotient made explicit. */
  ghost predicate Congruent(x: int, y: int, pcMax: int) {
    exists q: int :: x == y + pcMax * q
  }

  /**
   The adjustment wraps as addresses modulo the flash size do exactly when the displaced counter is
   less than one flash size away from the flash on either side.
   */
  lemma AdjustIsModulo(pc: int, pcMax: int)
    requires pcMax > 0
    ensures var r := AdjustToMax(pc, pcMax);
            Congruent(r, pc, pcMax) && (0 <= r < pcMax <==> -pcMax <= pc < 2 * pcMax)
  {
    var r := AdjustToMax(pc, pcMax);
    var q := (if pc < 0 then 1 else 0) - (if (if pc < 0 then pcMax + pc else pc) >= pcMax then 1 else 0);
    assert r == pc + pcMax * q;
  }

  /** A backward displacement of more than one flash size leaves the counter below the flash. */
  lemma AdjustFarBackwardFails(pc: int, pcMax: int)
    requires pcMax > 0 && pc < -pcMax
    ensures AdjustToMax(pc, pcMax) == pc + pcMax < 0
  {
  }

  /** Within that distance the adjusted counter is the only address in flash congruent to the displaced one. */
  lemma AdjustUnique(pc: int, pcMax: int, home: int)
    requires 0 <= home < pcMax && -pcMax <= pc < 2 * pcMax && Congruent(home, pc, pcMax)
    ensures AdjustToMax(pc, pcMax) == home
  {
    var r := AdjustToMax(pc, pcMax);
    AdjustIsModulo(pc, pcMax);
    var q :| home == pc + pcMax * q;
    var p :| r == pc + pcMax * p;
    assert home - r == pcMax * (q - p);
    Bitwise.NonzeroMultiple(pcMax, q - p);
  }
}
