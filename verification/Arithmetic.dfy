/** The smaller and the larger of two numbers. */
module Arithmetic {

  function Min(x: nat, y: nat): nat { if x < y then x else y }

  function Max(x: nat, y: nat): nat { if x > y then x else y }

  /** How much a condition counts. */
  function One(b: bool): nat { if b then 1 else 0 }
}
