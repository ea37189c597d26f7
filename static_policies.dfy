/**
 * The static adaptivity policies (libstm/policies/static.cpp): state
 * machines over the STM algorithms that move to the next algorithm when
 * the current one aborts or waits too often, and their registration in
 * the policy table.
 */
module StaticPolicies {
  import opened Algs

  /** Positions in the ALGS enum (libstm/algs/algs.hpp). */
  type AlgId = nat
  const CGL: AlgId := 0
  const TML: AlgId := 2
  const RingSW: AlgId := 3
  const OrecELA: AlgId := 5
  const TMLLazy: AlgId := 6
  const NOrecPrio: AlgId := 7
  const OrecFair: AlgId := 8
  const OrecEager: AlgId := 35
  const OrecLazy: AlgId := 39
  const NOrec: AlgId := 43
  const ALG_MAX: AlgId := 51

  /** pol_ER: ELA semantics with self-abort. */
  function PolER(alg: AlgId): (r: AlgId)
    ensures r < ALG_MAX
  {
    if alg == TMLLazy then RingSW
    else if alg == RingSW then OrecELA
    else if alg == OrecELA then NOrec
    else NOrecPrio
  }

  /** pol_E: ELA semantics without self-abort. */
  function PolE(alg: AlgId): (r: AlgId)
    ensures r < ALG_MAX
  {
    if alg == CGL then TML
    else if alg == TML then TMLLazy
    else PolER(alg)
  }

  /**
   * OrecFair is kept while the thread has had fewer than 16 priority bumps
   * (consec_aborts / KARMA_FACTOR < 16); after that the policy gives up on
   * it for NOrec.
   */
  function LeaveOrecFair(consecAborts: nat): (r: AlgId)
    ensures r == OrecFair <==> consecAborts < 16 * KARMA_FACTOR
    ensures r == OrecFair || r == NOrec
  {
    if consecAborts / KARMA_FACTOR < 16 then OrecFair else NOrec
  }

  /** pol_R: weak semantics with self-abort. */
  function PolR(alg: AlgId, consecAborts: nat): (r: AlgId)
    ensures r < ALG_MAX
  {
    if alg == TMLLazy then OrecEager
    else if alg == OrecEager then OrecLazy
    else if alg == OrecLazy then OrecFair
    else if alg == OrecFair then LeaveOrecFair(consecAborts)
    else NOrecPrio
  }

  /** pol_X: weak semantics without self-abort. */
  function PolX(alg: AlgId, consecAborts: nat): (r: AlgId)
    ensures r < ALG_MAX
  {
    if alg == CGL then OrecEager
    else if alg == OrecEager then OrecLazy
    else if alg == OrecLazy then OrecFair
    else if alg == OrecFair then LeaveOrecFair(consecAborts)
    else NOrecPrio
  }

  /** The algorithms of pol_E's chain, in order; every other id jumps to NOrecPrio. */
  const ChainE: seq<AlgId> := [CGL, TML, TMLLazy, RingSW, OrecELA, NOrec, NOrecPrio]

  /** pol_ER's chain: the tail of pol_E's that starts at TMLLazy. */
  const ChainER: seq<AlgId> := [TMLLazy, RingSW, OrecELA, NOrec, NOrecPrio]

  /** pol_E takes each algorithm of its chain to the next, and NOrecPrio to itself. */
  lemma PolEFollowsChain()
    ensures forall i :: 0 <= i < |ChainE| - 1 ==> PolE(ChainE[i]) == ChainE[i + 1]
    ensures PolE(NOrecPrio) == NOrecPrio
    ensures forall a: AlgId :: a !in ChainE ==> PolE(a) == NOrecPrio
  {
  }

  /** pol_ER follows its chain the same way. */
  lemma PolERFollowsChain()
    ensures forall i :: 0 <= i < |ChainER| - 1 ==> PolER(ChainER[i]) == ChainER[i + 1]
    ensures PolER(NOrecPrio) == NOrecPrio
    ensures forall a: AlgId :: a !in ChainER ==> PolER(a) == NOrecPrio
  {
  }

  /** pol_R's chain: from TMLLazy through the orec algorithms to OrecFair. */
  const ChainR: seq<AlgId> := [TMLLazy, OrecEager, OrecLazy, OrecFair]

  /** pol_X's chain: the same, starting from CGL. */
  const ChainX: seq<AlgId> := [CGL, OrecEager, OrecLazy, OrecFair]

  /**
   * pol_R takes each algorithm of its chain to the next; OrecFair stays
   * put until consec_aborts reaches 16 * KARMA_FACTOR and then gives way to
   * NOrec; every algorithm off the chain jumps to NOrecPrio.
   */
  lemma PolRFollowsChain(consecAborts: nat)
    ensures forall i :: 0 <= i < |ChainR| - 1 ==> PolR(ChainR[i], consecAborts) == ChainR[i + 1]
    ensures consecAborts < 16 * KARMA_FACTOR ==> PolR(OrecFair, consecAborts) == OrecFair
    ensures consecAborts >= 16 * KARMA_FACTOR ==> PolR(OrecFair, consecAborts) == NOrec
    ensures forall a: AlgId :: a !in ChainR ==> PolR(a, consecAborts) == NOrecPrio
  {
  }

  /** pol_X follows its chain the same way. */
  lemma PolXFollowsChain(consecAborts: nat)
    ensures forall i :: 0 <= i < |ChainX| - 1 ==> PolX(ChainX[i], consecAborts) == ChainX[i + 1]
    ensures consecAborts < 16 * KARMA_FACTOR ==> PolX(OrecFair, consecAborts) == OrecFair
    ensures consecAborts >= 16 * KARMA_FACTOR ==> PolX(OrecFair, consecAborts) == NOrec
    ensures forall a: AlgId :: a !in ChainX ==> PolX(a, consecAborts) == NOrecPrio
  {
  }

  /** `n` successive decisions of pol_E. */
  function IterE(alg: AlgId, n: nat): (r: AlgId)
    decreases n
  {
    if n == 0 then alg else IterE(PolE(alg), n - 1)
  }

  /** How many pol_E decisions separate an algorithm from NOrecPrio. */
  function RankE(alg: AlgId): (r: nat)
    ensures r <= |ChainE| - 1
    ensures r == 0 <==> alg == NOrecPrio
  {
    if alg == CGL then 6
    else if alg == TML then 5
    else if alg == TMLLazy then 4
    else if alg == RingSW then 3
    else if alg == OrecELA then 2
    else if alg == NOrecPrio then 0
    else 1
  }

  /** Every pol_E decision away from NOrecPrio brings it one step closer. */
  lemma PolEProgress(alg: AlgId)
    ensures alg != NOrecPrio ==> RankE(PolE(alg)) == RankE(alg) - 1
    ensures alg == NOrecPrio ==> PolE(alg) == NOrecPrio
  {
  }

  /**
   * pol_E settles: from any algorithm, RankE(alg) (at most six)
   * adaptations reach NOrecPrio, which every later adaptation keeps.
   */
  lemma {:induction false} PolESettles(alg: AlgId, n: nat)
    requires n >= RankE(alg)
    ensures IterE(alg, n) == NOrecPrio
    decreases n
  {
    if alg == NOrecPrio {
      IterNOrecPrioE(n);
    } else {
      PolEProgress(alg);
      PolESettles(PolE(alg), n - 1);
    }
  }

  lemma {:induction false} IterNOrecPrioE(k: nat)
    ensures IterE(NOrecPrio, k) == NOrecPrio
  {
    if k > 0 {
      IterNOrecPrioE(k - 1);
    }
  }

  /**
   * pol_R and pol_X leave OrecFair for NOrec exactly when the thread has
   * aborted at least 256 times in a row, and otherwise never choose NOrec.
   */
  lemma OrecFairExit(alg: AlgId, consecAborts: nat)
    ensures PolR(alg, consecAborts) == NOrec <==> alg == OrecFair && consecAborts >= 16 * KARMA_FACTOR
    ensures PolX(alg, consecAborts) == NOrec <==> alg == OrecFair && consecAborts >= 16 * KARMA_FACTOR
  {
  }

  /** pol_R and pol_X differ only in where they start: pol_R from TMLLazy, pol_X from CGL. */
  lemma RAndXShareTheirTail(alg: AlgId, consecAborts: nat)
    requires alg != CGL && alg != TMLLazy
    ensures PolR(alg, consecAborts) == PolX(alg, consecAborts)
  {
  }

  /** Positions in the POLS enum (libstm/policies/policies.hpp). */
  type PolId = nat
  const Single: PolId := 0
  const E: PolId := 2
  const ER: PolId := 3
  const R: PolId := 4
  const X: PolId := 5
  const POL_MAX: PolId := 37

  /** Which decision function a policy entry points to. */
  datatype Decider = NoDecider | DecideE | DecideER | DecideR | DecideX

  /** pol_t (its name string is left out). */
  datatype PolT = PolT(startmode: int, abortThresh: int, waitThresh: int,
                       isDynamic: bool, isCBR: bool, isCommitProfile: bool, decider: Decider)

  /** The next algorithm a decider chooses. */
  function Decide(d: Decider, alg: AlgId, consecAborts: nat): (r: AlgId)
    ensures r < ALG_MAX || (d == NoDecider && r == alg)
  {
    match d
    case NoDecider => alg
    case DecideE => PolE(alg)
    case DecideER => PolER(alg)
    case DecideR => PolR(alg, consecAborts)
    case DecideX => PolX(alg, consecAborts)
  }

  /**
   * init_pol_static: register Single (no adaptation) and the four state
   * machines, each starting at the head of its chain with abort threshold
   * 16 and wait threshold 2048, none dynamic, CBR or commit-profiled.
   * Other entries of the table are left as they were.
   */
  method InitPolStatic(pols: array<PolT>)
    requires pols.Length == POL_MAX
    modifies pols
    ensures pols[Single] == PolT(-1, -1, -1, false, false, false, NoDecider)
    ensures pols[E] == PolT(CGL, 16, 2048, false, false, false, DecideE)
    ensures pols[ER] == PolT(TMLLazy, 16, 2048, false, false, false, DecideER)
    ensures pols[X] == PolT(CGL, 16, 2048, false, false, false, DecideX)
    ensures pols[R] == PolT(TMLLazy, 16, 2048, false, false, false, DecideR)
    ensures forall p :: 0 <= p < POL_MAX && p !in {Single, E, ER, X, R} ==> pols[p] == old(pols[p])
  {
    pols[Single] := PolT(-1, -1, -1, false, false, false, NoDecider);
    pols[E] := PolT(CGL, 16, 2048, false, false, false, DecideE);
    pols[ER] := PolT(TMLLazy, 16, 2048, false, false, false, DecideER);
    pols[X] := PolT(CGL, 16, 2048, false, false, false, DecideX);
    pols[R] := PolT(TMLLazy, 16, 2048, false, false, false, DecideR);
  }

  /** Each registered state machine starts at an algorithm its own decider moves away from. */
  lemma StartModesAdvance(consecAborts: nat)
    ensures Decide(DecideE, CGL, consecAborts) == TML
    ensures Decide(DecideER, TMLLazy, consecAborts) == RingSW
    ensures Decide(DecideX, CGL, consecAborts) == OrecEager
    ensures Decide(DecideR, TMLLazy, consecAborts) == OrecEager
  {
  }
}
