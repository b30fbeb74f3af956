/**
 How a batch is divided: the gate that decides whether the NPU is used, and the split of its
 tokens between NPU and CPU.
 */
module TokenSplit {
  import ChunkedGemm

  const M_TILE := 1024

  /** bitnet_xdna_token_split with the split fraction and the forced tile count as inputs;
      a forced count below zero means "use the fraction". */
  function Split(forceTiles: int, frac: real, n: int): int {
    if n <= 0 then 0
    else if forceTiles >= 0 then (if forceTiles * M_TILE > n then n else forceTiles * M_TILE)
    else if n <= M_TILE then n
    else if frac >= 1.0 then n
    else if frac <= 0.0 then 0
    else
      var t := Tiles(frac, n) * M_TILE;
      if t < M_TILE then (if M_TILE > n then n else M_TILE) else if t > n then n else t
  }

  /** `(int64_t)((double)n / kMTile * frac + 0.5)`, in exact arithmetic. */
  function Tiles(frac: real, n: int): int {
    (n as real / 1024.0 * frac + 0.5).Floor
  }

  /** The NPU's share is always a part of the batch. */
  lemma SplitInRange(forceTiles: int, frac: real, n: int)
    ensures 0 <= Split(forceTiles, frac, n) <= if n < 0 then 0 else n
  {
  }

  /** The share the settings ask for fits the batch in whole tiles, or the batch is whole. */
  predicate FitsWhole(forceTiles: int, frac: real, n: int) {
    || n <= 0 || n % M_TILE == 0
    || (forceTiles >= 0 && forceTiles * M_TILE <= n)
    || (forceTiles < 0 && n > M_TILE && frac < 1.0 && (frac <= 0.0 || Tiles(frac, n) * M_TILE <= n))
  }

  /** Over all settings and batches: whole tiles exactly when the last tile fits, otherwise
      the whole batch. */
  lemma WholeTiles(forceTiles: int, frac: real, n: int)
    ensures Split(forceTiles, frac, n) % M_TILE == 0 <==> FitsWhole(forceTiles, frac, n)
    ensures Split(forceTiles, frac, n) % M_TILE != 0 ==> Split(forceTiles, frac, n) == n
  {
    WholeMultiple(forceTiles);
    WholeMultiple(Tiles(frac, n));
  }

  lemma WholeMultiple(t: int)
    ensures t * M_TILE % M_TILE == 0
  {
  }

  /** The share under every setting, without the formula of the fraction: an override gives its
      tiles or the whole batch, a batch of at most one tile is not divided, fractions of one and
      above give everything and fractions of zero and below nothing. */
  lemma SplitCases(forceTiles: int, frac: real, n: int)
    ensures n <= 0 ==> Split(forceTiles, frac, n) == 0
    ensures n > 0 && forceTiles >= 0 ==>
              Split(forceTiles, frac, n) == if forceTiles * 1024 <= n then forceTiles * 1024 else n
    ensures 0 < n <= 1024 && forceTiles < 0 ==> Split(forceTiles, frac, n) == n
    ensures n > 1024 && forceTiles < 0 && frac >= 1.0 ==> Split(forceTiles, frac, n) == n
    ensures n > 1024 && forceTiles < 0 && frac <= 0.0 ==> Split(forceTiles, frac, n) == 0
    ensures n > 1024 && forceTiles < 0 && 0.0 < frac < 1.0 ==>
              1024 <= Split(forceTiles, frac, n) <= n
              && (Split(forceTiles, frac, n) as real - n as real * frac <= 512.0 || Split(forceTiles, frac, n) == 1024)
              && (n as real * frac - Split(forceTiles, frac, n) as real <= 512.0 || Split(forceTiles, frac, n) == n)
  {
    if n > 1024 && 0.0 < frac < 1.0 {
      var x := n as real / 1024.0 * frac + 0.5;
      assert x.Floor as real <= x < x.Floor as real + 1.0;
      assert n as real / 1024.0 * frac * 1024.0 == n as real * frac;
    }
  }

  /** What the header promises: whole tiles, or the whole of a batch too small to divide. It is
      kept exactly for batches of at most one tile and shares that fit. */
  lemma HeaderPromise(forceTiles: int, frac: real, n: int)
    ensures (Split(forceTiles, frac, n) % M_TILE == 0 || (n <= M_TILE && Split(forceTiles, frac, n) == n))
        <==> n <= M_TILE || FitsWhole(forceTiles, frac, n)
  {
    WholeTiles(forceTiles, frac, n);
  }

  /** A fraction near one, a fraction of one and an override that does not fit all hand over a
      batch of 1900 tokens, its padded last tile included. */
  lemma WholeTilesFails()
    ensures Split(-1, 0.9, 1900) == Split(-1, 1.0, 1900) == Split(2, 0.5, 1900) == 1900 && 1900 % M_TILE != 0
  {
    assert Tiles(0.9, 1900) == 2;
  }

  /** Unless a clamp fires, the share is within half a tile of the requested fraction. */
  lemma NearFraction(forceTiles: int, frac: real, n: int)
    requires forceTiles < 0 && 0.0 < frac < 1.0 && n > M_TILE
    requires M_TILE <= Tiles(frac, n) * M_TILE <= n
    ensures -512.0 <= Split(forceTiles, frac, n) as real - n as real * frac <= 512.0
  {
    var x := n as real / 1024.0 * frac + 0.5;
    assert x.Floor as real <= x < x.Floor as real + 1.0;
    assert n as real / 1024.0 * frac * 1024.0 == n as real * frac;
  }

  ghost predicate Grows(forceTiles: int, frac: real) {
    forall n1, n2 :: n1 <= n2 ==> Split(forceTiles, frac, n1) <= Split(forceTiles, frac, n2)
  }

  /** More tokens never shrink the share, exactly when an override is set or the fraction is
      positive. */
  lemma Monotone(forceTiles: int, frac: real)
    ensures Grows(forceTiles, frac) <==> forceTiles >= 0 || frac > 0.0
  {
    if forceTiles >= 0 || frac > 0.0 {
      forall n1, n2 | n1 <= n2 ensures Split(forceTiles, frac, n1) <= Split(forceTiles, frac, n2) {
        if forceTiles < 0 && M_TILE < n1 && frac < 1.0 { TilesMonotone(frac, n1, n2); }
      }
    } else {
      ZeroFractionDrops(forceTiles, frac);
    }
  }

  /** Fraction zero leaves everything to the CPU, except batches of at most one tile. */
  lemma ZeroFractionDrops(forceTiles: int, frac: real)
    requires forceTiles < 0 && frac <= 0.0
    ensures Split(forceTiles, frac, 1024) == 1024 && Split(forceTiles, frac, 1025) == 0
  {
  }

  lemma TilesMonotone(frac: real, n1: int, n2: int)
    requires 0.0 < frac && n1 <= n2
    ensures Tiles(frac, n1) <= Tiles(frac, n2)
  {
    var x1, x2 := n1 as real / 1024.0, n2 as real / 1024.0;
    assert (x2 - x1) * frac >= 0.0;
    assert x1 * frac + 0.5 <= x2 * frac + 0.5;
    FloorMonotone(x1 * frac + 0.5, x2 * frac + 0.5);
  }

  lemma FloorMonotone(x: real, y: real)
    requires x <= y
    ensures x.Floor <= y.Floor
  {
  }

  /** The default half split is always whole tiles, at least one and never more than the batch. */
  lemma HalfIsWholeTiles(forceTiles: int, n: int)
    requires forceTiles < 0 && n > M_TILE
    ensures Split(forceTiles, 0.5, n) % M_TILE == 0 && M_TILE <= Split(forceTiles, 0.5, n) <= n
  {
    var x := n as real / 1024.0 * 0.5 + 0.5;
    assert x.Floor as real <= x;
    assert Tiles(0.5, n) as real * 1024.0 <= n as real * 0.5 + 512.0;
  }

  /** The process-wide settings, resolved once from the environment. */
  datatype Env = Env(enabled: bool, tiles: int, split: real, minTokens: int, device: bool)

  class Gate {
    var state: int
    var fast: int
    var minTokens: int
    var splitFrac: real
    var forceTiles: int

    predicate Valid()
      reads this
    {
      && -1 <= state <= 1 && fast in {-1, state}
      && 0.0 <= splitFrac <= 1.0
      && (state == 1 ==> minTokens >= M_TILE)
    }

    constructor ()
      ensures Valid() && state == -1 && fast == -1
      ensures minTokens == M_TILE && splitFrac == 0.5 && forceTiles == -1
    {
      state, fast, minTokens, splitFrac, forceTiles := -1, -1, M_TILE, 0.5, -1;
    }

    /** bitnet_xdna_available: the first answer stands, whatever the environment does later. */
    method Available(env: Env) returns (r: int)
      requires Valid()
      modifies this
      ensures Valid() && fast == state == r && r in {0, 1}
      ensures old(state) >= 0 ==>
                r == old(state) && minTokens == old(minTokens) && splitFrac == old(splitFrac) && forceTiles == old(forceTiles)
      ensures old(state) < 0 ==> r == if env.enabled && env.device then 1 else 0
      ensures old(state) < 0 && !env.enabled ==>
                minTokens == old(minTokens) && splitFrac == old(splitFrac) && forceTiles == old(forceTiles)
      ensures old(state) < 0 && env.enabled ==> forceTiles == env.tiles
      ensures old(state) < 0 && env.enabled ==>
                splitFrac == if 0.0 <= env.split <= 1.0 then env.split else old(splitFrac)
      ensures old(state) < 0 && env.enabled && env.minTokens > 0 ==>
                minTokens == if env.minTokens < 1024 then 1024 else env.minTokens
      ensures old(state) < 0 && env.enabled && env.minTokens <= 0 ==>
                minTokens == if old(minTokens) < 1024 then 1024 else old(minTokens)
      ensures r == 1 ==> minTokens >= M_TILE
    {
      if fast >= 0 { return fast; }
      if state >= 0 { fast := state; return state; }
      state := 0;
      if !env.enabled { fast := 0; return 0; }
      forceTiles := env.tiles;
      if 0.0 <= env.split <= 1.0 { splitFrac := env.split; }
      if env.minTokens > 0 { minTokens := env.minTokens; }
      if minTokens < M_TILE { minTokens := M_TILE; }
      state := if env.device then 1 else 0;
      fast := state;
      r := state;
    }

    /** bitnet_xdna_worth_it. */
    predicate WorthIt(nTokens: int)
      reads this
    {
      nTokens >= minTokens
    }

    /** The gate opens at exactly the threshold, never below a full tile. */
    lemma OpensAt(nTokens: int)
      requires Valid() && state == 1
      ensures nTokens < 1024 ==> !WorthIt(nTokens)
      ensures minTokens <= 1024 ==> (WorthIt(nTokens) <==> nTokens >= 1024)
    {
    }

    /** The share the patched mul_mat gives the NPU. */
    function Share(nth: nat, nTokens: int): int
      reads this
    {
      if nth > 1 then Split(forceTiles, splitFrac, nTokens) else nTokens
    }

    /** With worker threads, the default fraction and no override, whatever passes the gate
        is dispatched in full tiles only: the token loop copies M_TILE rows for each. */
    lemma NoPaddedDispatch(nth: nat, nTokens: int)
      requires Valid() && state == 1 && WorthIt(nTokens)
      requires nth > 1 && splitFrac == 0.5 && forceTiles < 0
      ensures nTokens >= M_TILE && Share(nth, nTokens) >= M_TILE && Share(nth, nTokens) % M_TILE == 0
      ensures forall i: nat :: i * M_TILE < Share(nth, nTokens) ==>
                ChunkedGemm.Min(M_TILE, Share(nth, nTokens) - i * M_TILE) == M_TILE
    {
      if nTokens > M_TILE {
        HalfIsWholeTiles(forceTiles, nTokens);
      }
    }
  }
}
