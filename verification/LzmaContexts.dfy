/** The adaptive probability tables of the codec and the contexts that index them. */
module LzmaContexts {
  import opened Bytes

  /** One table per probability array of the codec; a table is selected by the outer indices. */
  datatype Table =
    | IsMatch(state: nat)
    | IsRep
    | IsRep0
    | IsRep0Long(state: nat)
    | IsRep1
    | IsRep2
    | Literal(posState: nat, prevMsbs: nat)
    | DistSlot(lenClass: nat)
    | DistSpecial(slot: nat)
    | DistAlign
    | LenChoice
    | LenChoice2
    | LenLow(isRep: nat, posState: nat)
    | LenMid(isRep: nat, posState: nat)
    | LenHigh(isRep: nat)

  datatype Ctx = Cell(table: Table, index: int)

  const N_STATES := 12
  const N_LIT_STATES := 7
  const N_PREV_BYTE_LC_MSBS := 256

  /** How many literal and position states the arrays are declared for. */
  datatype Dims = Dims(litPosStates: nat, posStates: nat)

  const ENCODER_DIMS := Dims(1, 1)
  const DECODER_DIMS := Dims(16, 16)

  /** Declared length of the innermost array of each table. */
  function Length(t: Table, d: Dims): nat {
    match t
    case IsMatch(_) => d.posStates
    case IsRep => N_STATES
    case IsRep0 => N_STATES
    case IsRep0Long(_) => d.posStates
    case IsRep1 => N_STATES
    case IsRep2 => N_STATES
    case Literal(_, _) => 768
    case DistSlot(_) => 63
    case DistSpecial(_) => 31
    case DistAlign => 15
    case LenChoice => 2
    case LenChoice2 => 2
    case LenLow(_, _) => 7
    case LenMid(_, _) => 7
    case LenHigh(_) => 255
  }

  /** The outer indices are inside the declared arrays. */
  predicate TableInBounds(t: Table, d: Dims) {
    match t
    case IsMatch(s) => s < N_STATES
    case IsRep0Long(s) => s < N_STATES
    case Literal(p, m) => p < d.litPosStates && m < N_PREV_BYTE_LC_MSBS
    case DistSlot(k) => k < 4
    case DistSpecial(k) => k < 10
    case LenLow(r, p) => r < 2 && p < d.posStates
    case LenMid(r, p) => r < 2 && p < d.posStates
    case LenHigh(r) => r < 2
    case _ => true
  }

  /** The access stays inside the C array it is made on. */
  predicate InBounds(c: Ctx, d: Dims) {
    TableInBounds(c.table, d) && 0 <= c.index < Length(c.table, d)
  }

  type Probs = map<Ctx, nat>

  const HALF_PROBABILITY := 1024

  /** The tables start with every entry at one half. */
  function ProbOf(m: Probs, c: Ctx): nat {
    if c in m then m[c] else HALF_PROBABILITY
  }


  function Adapt(prob: nat, b: bit): nat
    requires prob <= 2048
  {
    if b == 0 then prob + (2048 - prob) / 32 else prob - prob / 32
  }

  /** Every stored probability is one that 11-bit adaptation can reach. */
  ghost predicate Bounded(m: Probs) {
    forall c :: c in m ==> 31 <= m[c] <= 2017
  }

  function Trained(m: Probs, c: Ctx, b: bit): Probs
    requires ProbOf(m, c) <= 2048
  {
    m[c := Adapt(ProbOf(m, c), b)]
  }

  lemma TrainedIsBounded(m: Probs, c: Ctx, b: bit)
    requires Bounded(m)
    ensures 31 <= ProbOf(m, c) <= 2017
    ensures Bounded(Trained(m, c, b))
  {
  }
}
