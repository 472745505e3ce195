/**
 The widths of a data-port access, in bytes, and the transfers they divide.
 */
module Widths {
  import opened Arith

  predicate Width(w: nat) {
    w in {1, 2, 4}
  }

  predicate Multiple(n: nat, w: nat)
    requires Width(w)
  {
    n % w == 0
  }

  lemma MultipleMinus(a: nat, b: nat, w: nat)
    requires Width(w) && Multiple(a, w) && Multiple(b, w) && b <= a
    ensures Multiple(a - b, w)
  {
    if w == 2 {
      DivMod(a - b, a / 2 - b / 2, 2, 0);
    } else if w == 4 {
      DivMod(a - b, a / 4 - b / 4, 4, 0);
    }
  }

  /** Between two multiples there is room for a whole access. */
  lemma RoomBetween(a: nat, b: nat, w: nat)
    requires Width(w) && Multiple(a, w) && Multiple(b, w) && a < b
    ensures a + w <= b
  {
    MultipleMinus(b, a, w);
  }

  lemma MultiplePlus(a: nat, w: nat)
    requires Width(w) && Multiple(a, w)
    ensures Multiple(a + w, w)
  {
  }
}
