/** The reference notion both debounce engines are measured against. */
module Streaks {

  /** The number of consecutive breaches at the end of `flags`, counting
      `init` earlier breaches as well when every flag is a breach. */
  function TrailingBreaches(init: nat, flags: seq<bool>): nat {
    if |flags| == 0 then init
    else if flags[|flags| - 1] then TrailingBreaches(init, flags[..|flags| - 1]) + 1
    else 0
  }

  /** One more flag either extends the trailing run or ends it. */
  lemma TrailingBreachesStep(init: nat, flags: seq<bool>, b: bool)
    ensures TrailingBreaches(init, flags + [b]) == if b then TrailingBreaches(init, flags) + 1 else 0
  {
    assert (flags + [b])[..|flags|] == flags;
  }
}
