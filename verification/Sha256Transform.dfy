/** The block function of sha256.h. It never moves a working variable: round i
    addresses the eight cells of S through an index that turns with i. */
module Sha256Transform {
  import opened Bits
  import opened Memory
  import opened Sha256Spec

  // ----- the source's forms of the elementary functions -----

  function FastCh(x: Word, y: Word, z: Word): Word {
    Xor32(And32(x, Xor32(y, z)), z)
  }

  function FastMaj(x: Word, y: Word, z: Word): Word {
    Or32(And32(x, Or32(y, z)), And32(y, z))
  }

  lemma FastFormsAgree(x: Word, y: Word, z: Word)
    ensures FastCh(x, y, z) == Ch(x, y, z)
    ensures FastMaj(x, y, z) == Maj(x, y, z)
  {
    Pow2Values();
    ChoiceBits(x, y, z, 32);
    MajorityBits(x, y, z, 32);
  }

  lemma {:induction false} ChoiceBits(x: nat, y: nat, z: nat, n: nat)
    requires x < Pow2(n) && y < Pow2(n) && z < Pow2(n)
    ensures Xor(And(x, Xor(y, z)), z) == Xor(And(x, y), And(Pow2(n) - 1 - x, z))
  {
    hide And, Xor;
    if n > 0 {
      var p := Pow2(n - 1);
      ComplementHalves(x, p);
      ChoiceBits(x / 2, y / 2, z / 2, n - 1);
      ChoiceStep(x, y, z, 2 * p - 1 - x);
    } else {
      NoBits();
    }
  }

  lemma NoBits()
    ensures Xor(And(0, Xor(0, 0)), 0) == Xor(And(0, 0), And(Pow2(0) - 1 - 0, 0))
  {
  }

  lemma ComplementHalves(x: nat, p: nat)
    requires x < 2 * p
    ensures (2 * p - 1 - x) / 2 == p - 1 - x / 2 && (2 * p - 1 - x) % 2 == 1 - x % 2
  {
  }

  lemma {:induction false} ChoiceStep(x: nat, y: nat, z: nat, notX: nat)
    requires notX % 2 == 1 - x % 2
    requires Xor(And(x / 2, Xor(y / 2, z / 2)), z / 2) == Xor(And(x / 2, y / 2), And(notX / 2, z / 2))
    ensures Xor(And(x, Xor(y, z)), z) == Xor(And(x, y), And(notX, z))
  {
    hide And, Xor;
    XorHalves(y, z); AndHalves(x, Xor(y, z)); XorHalves(And(x, Xor(y, z)), z);
    AndHalves(x, y); AndHalves(notX, z); XorHalves(And(x, y), And(notX, z));
    SameHalves(Xor(And(x, Xor(y, z)), z), Xor(And(x, y), And(notX, z)));
  }

  lemma {:induction false} MajorityBits(x: nat, y: nat, z: nat, n: nat)
    requires x < Pow2(n) && y < Pow2(n) && z < Pow2(n)
    ensures Or(And(x, Or(y, z)), And(y, z)) == Xor(Xor(And(x, y), And(x, z)), And(y, z))
  {
    if n > 0 {
      assert Pow2(n) == 2 * Pow2(n - 1);
      hide And, Or, Xor, Pow2;
      MajorityBits(x / 2, y / 2, z / 2, n - 1);
      OrHalves(y, z); AndHalves(y, z); AndHalves(x, Or(y, z)); OrHalves(And(x, Or(y, z)), And(y, z));
      AndHalves(x, y); AndHalves(x, z); XorHalves(And(x, y), And(x, z));
      XorHalves(Xor(And(x, y), And(x, z)), And(y, z));
      SameHalves(Or(And(x, Or(y, z)), And(y, z)), Xor(Xor(And(x, y), And(x, z)), And(y, z)));
    }
  }

  lemma SameHalves(u: nat, v: nat)
    requires u / 2 == v / 2 && u % 2 == v % 2
    ensures u == v
  {
  }

  lemma SumsAgree(h: Word, s: Word, ch: Word, k: Word, w: Word)
    ensures Add32(Add32(Add32(h, s), ch), Add32(w, k)) == Add32(Add32(Add32(Add32(h, s), ch), k), w)
  {
    Add32Shuffle(Add32(Add32(h, s), ch), w, k);
  }

  lemma Add32Shuffle(x: Word, w: Word, k: Word)
    ensures Add32(x, Add32(w, k)) == Add32(Add32(x, k), w)
  {
    AddOnRight(x, w, k);
    AddOnRight(w, x, k);
    assert Add32(Add32(x, k), w) == Add32(w, Add32(x, k));
  }

  lemma AddOnRight(x: Word, w: Word, k: Word)
    ensures Add32(x, Add32(w, k)) == (x + w + k) % 0x1_0000_0000
  {
  }

  /** The cell that holds working variable number k (a is 0, h is 7) in round i. */
  function Cell(i: nat, k: nat): (c: nat)
    requires i <= 64 && k < 8
    ensures c < 8
  {
    (64 - i + k) % 8
  }

  /** Distinct variables live in distinct cells, and from one round to the next every
      variable takes its neighbour's name while staying where it is. */
  lemma CellsTurn(i: nat)
    requires i < 64
    ensures forall j, k :: 0 <= j < k < 8 ==> Cell(i, j) != Cell(i, k)
    ensures forall k :: 0 <= k < 7 ==> Cell(i + 1, k + 1) == Cell(i, k)
    ensures Cell(i + 1, 0) == Cell(i, 7)
  {
  }

  /** The working variables of FIPS 180-4 read out of the cells in round i. */
  function Named(s: seq<Word>, i: nat): Vars
    requires |s| == 8 && i <= 64
  {
    Vars(s[Cell(i, 0)], s[Cell(i, 1)], s[Cell(i, 2)], s[Cell(i, 3)],
         s[Cell(i, 4)], s[Cell(i, 5)], s[Cell(i, 6)], s[Cell(i, 7)])
  }

  /** After 64 rounds the turning index is back where it began. */
  lemma NamesReturn(s: seq<Word>)
    requires |s| == 8
    ensures Named(s, 64) == Named(s, 0) == Vars(s[0], s[1], s[2], s[3], s[4], s[5], s[6], s[7])
  {
  }

  /** RNDr: updates only the cells of d and h. */
  method RoundInPlace(S: array<Word>, i: nat, k: Word, w: Word)
    requires S.Length == 8 && i < 64
    modifies S
    ensures Named(S[..], i + 1) == Round(old(Named(S[..], i)), k, w)
  {
    CellsTurn(i);
    var a, b, c := S[Cell(i, 0)], S[Cell(i, 1)], S[Cell(i, 2)];
    var e, f, g := S[Cell(i, 4)], S[Cell(i, 5)], S[Cell(i, 6)];
    var t0 := Add32(Add32(Add32(S[Cell(i, 7)], BigSigma1(e)), FastCh(e, f, g)), Add32(w, k));
    var t1 := Add32(BigSigma0(a), FastMaj(a, b, c));
    FastFormsAgree(e, f, g);
    FastFormsAgree(a, b, c);
    SumsAgree(S[Cell(i, 7)], BigSigma1(e), Ch(e, f, g), k, w);
    S[Cell(i, 3)] := Add32(S[Cell(i, 3)], t0);
    S[Cell(i, 7)] := Add32(t0, t1);
  }

  /** Prepares the message schedule W. */
  method Expand(block: Block) returns (W: array<Word>)
    ensures fresh(W) && W.Length == 64
    ensures forall t :: 0 <= t < 64 ==> W[t] == Schedule(block, t)
  {
    W := new Word[64];
    var i := 0;
    while i < 16
      invariant 0 <= i <= 16
      invariant forall t :: 0 <= t < i ==> W[t] == Schedule(block, t)
    {
      W[i] := Be32Dec(block[i * 4..i * 4 + 4]);
      i := i + 1;
    }
    while i < 64
      invariant 16 <= i <= 64
      invariant forall t :: 0 <= t < i ==> W[t] == Schedule(block, t)
    {
      W[i] := Add32(Add32(Add32(SmallSigma1(W[i - 2]), W[i - 7]), SmallSigma0(W[i - 15])), W[i - 16]);
      i := i + 1;
    }
  }

  /** SHA256_Transform. */
  method Transform(state: array<Word>, block: Block)
    requires state.Length == 8
    modifies state
    ensures state[..] == Compress(old(state[..]), block)
  {
    hide Rounds, Schedule, AddVars, Named, Add32;
    ghost var before: State := state[..];
    var W := Expand(block);
    var S := new Word[8];
    CopySeq(S, 0, state[..]);
    assert S[..] == before;
    MixRounds(S, W, block);
    NamesReturn(S[..]);
    ghost var s := S[..];
    AddInPlace(state, S);
    AddedVars(before, s, state[..]);
  }

  lemma AddedVars(before: State, s: seq<Word>, after: seq<Word>)
    requires |s| == 8 && |after| == 8 && forall j :: 0 <= j < 8 ==> after[j] == Add32(before[j], s[j])
    ensures after == AddVars(before, Vars(s[0], s[1], s[2], s[3], s[4], s[5], s[6], s[7]))
  {
    hide Add32;
  }

  /** The 64 rounds. */
  method MixRounds(S: array<Word>, W: array<Word>, block: Block)
    requires S.Length == 8 && S != W && W.Length == 64
    requires forall t :: 0 <= t < 64 ==> W[t] == Schedule(block, t)
    modifies S
    ensures Named(S[..], 64) == Rounds(old(S[..]), block, 64)
  {
    hide Round, Schedule, ROUND_CONSTANTS, Add32;
    ghost var before: State := S[..];
    NamesReturn(S[..]);
    var i := 0;
    while i < 64
      invariant 0 <= i <= 64
      invariant forall t :: 0 <= t < 64 ==> W[t] == Schedule(block, t)
      invariant Named(S[..], i) == Rounds(before, block, i)
    {
      RoundInPlace(S, i, K(i), W[i]);
      i := i + 1;
    }
  }

  /** Adds the working variables into the state. */
  method AddInPlace(state: array<Word>, S: array<Word>)
    requires state.Length == S.Length == 8 && state != S
    modifies state
    ensures forall j :: 0 <= j < 8 ==> state[j] == Add32(old(state[j]), S[j])
  {
    var i := 0;
    while i < 8
      invariant 0 <= i <= 8
      invariant forall j :: 0 <= j < i ==> state[j] == Add32(old(state[j]), S[j])
      invariant forall j :: i <= j < 8 ==> state[j] == old(state[j])
    {
      state[i] := Add32(state[i], S[i]);
      i := i + 1;
    }
  }
}
