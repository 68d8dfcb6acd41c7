/** The seeded generator that draws the start order (graph.rs:127-145). */
module SplitMix {

  const TWO64: nat := 0x1_0000_0000_0000_0000

  function NextState(state: bv64): bv64 {
    state + 0x9E37_79B9_7F4A_7C15
  }

  function Fold30(x: bv64): bv64 {
    x ^ (x >> 30)
  }

  function Scale1(x: bv64): bv64 {
    x * 0xBF58_476D_1CE4_E5B9
  }

  function Fold27(x: bv64): bv64 {
    x ^ (x >> 27)
  }

  function Scale2(x: bv64): bv64 {
    x * 0x94D0_49BB_1331_11EB
  }

  function Fold31(x: bv64): bv64 {
    x ^ (x >> 31)
  }

  /** The mixing of the state: shifts and multiplications by odd constants in turn. */
  function Output(state: bv64): bv64 {
    Fold31(Scale2(Fold27(Scale1(Fold30(state)))))
  }

  /** The draw as a number below 2^64. */
  function Draw(state: bv64): (draw: nat)
    ensures draw < TWO64
  {
    Output(state) as nat
  }

  // ----- Every 64-bit value is drawn from exactly one state -----

  function Unfold30(y: bv64): bv64 {
    y ^ (y >> 30) ^ (y >> 60)
  }

  function Unscale1(y: bv64): bv64 {
    y * 0x96DE_1B17_3F11_9089
  }

  function Unfold27(y: bv64): bv64 {
    y ^ (y >> 27) ^ (y >> 54)
  }

  function Unscale2(y: bv64): bv64 {
    y * 0x3196_42B2_D24D_8EC3
  }

  function Unfold31(y: bv64): bv64 {
    y ^ (y >> 31) ^ (y >> 62)
  }

  lemma Shift30(x: bv64)
    ensures Unfold30(x ^ (x >> 30)) == x && Fold30(x ^ (x >> 30) ^ (x >> 60)) == x
  {
  }

  lemma Fold30Undone(x: bv64)
    ensures Unfold30(Fold30(x)) == x && Fold30(Unfold30(x)) == x
  {
    Shift30(x);
  }

  lemma Shift27(x: bv64)
    ensures Unfold27(x ^ (x >> 27)) == x && Fold27(x ^ (x >> 27) ^ (x >> 54)) == x
  {
  }

  lemma Fold27Undone(x: bv64)
    ensures Unfold27(Fold27(x)) == x && Fold27(Unfold27(x)) == x
  {
    Shift27(x);
  }

  lemma Shift31(x: bv64)
    ensures Unfold31(x ^ (x >> 31)) == x && Fold31(x ^ (x >> 31) ^ (x >> 62)) == x
  {
  }

  lemma Fold31Undone(x: bv64)
    ensures Unfold31(Fold31(x)) == x && Fold31(Unfold31(x)) == x
  {
    Shift31(x);
  }

  // The factors are odd, so multiplying by their inverses modulo 2^64 undoes them.

  lemma Factor1(x: bv64)
    ensures Unscale1(x * 0xBF58_476D_1CE4_E5B9) == x && Scale1(x * 0x96DE_1B17_3F11_9089) == x
  {
  }

  lemma Scale1Undone(x: bv64)
    ensures Unscale1(Scale1(x)) == x && Scale1(Unscale1(x)) == x
  {
    Factor1(x);
  }

  lemma Factor2(x: bv64)
    ensures Unscale2(x * 0x94D0_49BB_1331_11EB) == x && Scale2(x * 0x3196_42B2_D24D_8EC3) == x
  {
  }

  lemma Scale2Undone(x: bv64)
    ensures Unscale2(Scale2(x)) == x && Scale2(Unscale2(x)) == x
  {
    Factor2(x);
  }

  function Unmix(draw: bv64): bv64 {
    Unfold30(Unscale1(Unfold27(Unscale2(Unfold31(draw)))))
  }

  lemma OutputUndone(z: bv64)
    ensures Unmix(Output(z)) == z
  {
    var a := Fold30(z);
    var b := Scale1(a);
    var c := Fold27(b);
    var d := Scale2(c);
    Fold31Undone(d);
    Scale2Undone(c);
    Fold27Undone(b);
    Scale1Undone(a);
    Fold30Undone(z);
  }

  lemma UnmixUndone(draw: bv64)
    ensures Output(Unmix(draw)) == draw
  {
    var d := Unfold31(draw);
    var c := Unscale2(d);
    var b := Unfold27(c);
    var a := Unscale1(b);
    Fold30Undone(a);
    Scale1Undone(b);
    Fold27Undone(c);
    Scale2Undone(d);
    Fold31Undone(draw);
  }

  function PreviousState(state: bv64): bv64 {
    state - 0x9E37_79B9_7F4A_7C15
  }

  lemma NextPrevious(state: bv64)
    ensures PreviousState(NextState(state)) == state && NextState(PreviousState(state)) == state
  {
  }

  /** The next value drawn is a given one from exactly one state, so none is favoured or missed. */
  lemma DrawnFromOneState(state: bv64, draw: bv64)
    ensures Output(NextState(state)) == draw <==> state == PreviousState(Unmix(draw))
  {
    OutputUndone(NextState(state));
    UnmixUndone(draw);
    NextPrevious(state);
    NextPrevious(Unmix(draw));
  }

  lemma MulCancel(a: nat, b: nat, c: nat)
    requires a * c < b * c
    ensures a < b
  {
    if b <= a {
      MulMonotone(b, a, c);
    }
  }

  lemma MulMonotone(a: nat, b: nat, c: nat)
    requires a <= b
    ensures a * c <= b * c
  {
  }

  /** Scales a 64-bit draw to an index: the high half of a 128-bit product. */
  function Scale(draw: nat, len: nat): nat {
    draw * len / TWO64
  }

  lemma MulBelow(a: nat, b: nat, c: nat)
    requires a < b && c > 0
    ensures a * c < b * c
  {
  }

  lemma ScaleBelow(draw: nat, len: nat)
    requires draw < TWO64 && len > 0
    ensures Scale(draw, len) < len
  {
    MulBelow(draw, TWO64, len);
  }

  /** Every index can be drawn: Scale maps the 64-bit draws onto 0..len. */
  lemma ScaleOnto(i: nat, len: nat) returns (draw: nat)
    requires i < len <= TWO64
    ensures draw < TWO64 && Scale(draw, len) == i
  {
    draw := (i * TWO64 + len - 1) / len;
    assert i * TWO64 <= draw * len < i * TWO64 + len;
    MulMonotone(i + 1, len, TWO64);
    assert draw * len < (i + 1) * TWO64;
    MulCancel(draw, TWO64, len);
  }

  function Below(state: bv64, len: nat): (i: nat)
    requires len > 0
    ensures i < len
  {
    var draw := Draw(NextState(state));
    ScaleBelow(draw, len);
    Scale(draw, len)
  }

  lemma DrawIs(state: bv64)
    ensures Draw(state) == Output(state) as int
  {
  }

  lemma ScaleIs(draw: nat, len: nat, i: nat)
    ensures Scale(draw, len) == i <==>
      i * 0x1_0000_0000_0000_0000 <= draw * len < i * 0x1_0000_0000_0000_0000 + 0x1_0000_0000_0000_0000
  {
  }

  /** The draw is the 64-bit output, and its index that fraction of 2^64, of the length, rounded down. */
  lemma IndexDrawn(state: bv64, len: nat, i: nat, draw: nat)
    requires len > 0 && draw == Output(NextState(state)) as int
    ensures Below(state, len) == i <==>
      i * 0x1_0000_0000_0000_0000 <= draw * len < i * 0x1_0000_0000_0000_0000 + 0x1_0000_0000_0000_0000
  {
    DrawIs(NextState(state));
    ScaleIs(draw, len, i);
  }

  /** The first outputs of the generator seeded with zero. */
  lemma KnownOutputs()
    ensures Output(NextState(0)) == 0xE220_A839_7B1D_CDAF
    ensures Output(NextState(NextState(0))) == 0x6E78_9E6A_A1B9_65F4
    ensures Output(NextState(NextState(NextState(0)))) == 0x06C4_5D18_8009_454F
  {
  }

  class SplitMix64 {
    var state: bv64

    constructor (seed: bv64)
      ensures state == seed
    {
      state := seed;
    }

    method Next() returns (draw: nat)
      modifies this
      ensures state == NextState(old(state)) && draw == Draw(state)
    {
      state := NextState(state);
      draw := Draw(state);
    }

    /** An index in 0..len. */
    method DrawBelow(len: nat) returns (i: nat)
      requires len > 0
      modifies this
      ensures i < len && i == Below(old(state), len)
      ensures state == NextState(old(state))
    {
      var draw := Next();
      ScaleBelow(draw, len);
      i := Scale(draw, len);
    }
  }
}
