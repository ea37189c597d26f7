/**
 * The pieces shared by the two lock-free transactional sets
 * (translink/list/translist.cc and translink/skiplist/transskip.cc):
 * transaction and node descriptors, the logical-presence rule
 * IsKeyExist, the view of a sorted node list as a map from keys to node
 * descriptors, and the reference semantics a transaction is measured
 * against.
 *
 * Both sets keep a node per key ever inserted (physical removal is
 * switched off in the source) and decide whether the key is in the set
 * from the descriptor of the last operation that claimed the node.
 */
module Translink {
  /** A transaction descriptor's identity (its address in the source). */
  type DescId = nat

  /** OpStatus: ACTIVE (LIVE in the skip list), COMMITTED, ABORTED. */
  datatype Status = Active | Committed | Aborted

  /** OpType */
  datatype OpType = Find | Insert | Delete

  /** Operator: one operation of a transaction. */
  datatype Operator = Operator(kind: OpType, key: nat)

  /** NodeDesc: the transaction and the position of the operation that last claimed a node. */
  datatype NodeDesc = NodeDesc(desc: DescId, opid: nat)

  /** A node of the bottom-level list: its key and its node descriptor. */
  datatype Node = Node(key: nat, nodeDesc: NodeDesc)

  /** The node descriptor points at an allocated transaction and one of its operations. */
  predicate DescOk(nd: NodeDesc, status: map<DescId, Status>, descOps: map<DescId, seq<Operator>>)
  {
    nd.desc in status && nd.desc in descOps && nd.opid < |descOps[nd.desc]|
  }

  /**
   * IsKeyExist: a FIND keeps the key present whatever the outcome; an
   * INSERT makes it present only once committed; a DELETE leaves it
   * present until committed.  IsNodeActive is "the transaction has
   * committed".
   */
  function IsKeyExist(nd: NodeDesc, status: map<DescId, Status>, descOps: map<DescId, seq<Operator>>): (r: bool)
    requires DescOk(nd, status, descOps)
  {
    var opType := descOps[nd.desc][nd.opid].kind;
    opType == Find || (status[nd.desc] == Committed && opType == Insert) ||
    (status[nd.desc] != Committed && opType == Delete)
  }

  /** The three-case rule, and that only the commit (not ACTIVE versus ABORTED) matters. */
  lemma IsKeyExistCases(nd: NodeDesc, status: map<DescId, Status>, descOps: map<DescId, seq<Operator>>)
    requires DescOk(nd, status, descOps)
    ensures descOps[nd.desc][nd.opid].kind == Find ==> IsKeyExist(nd, status, descOps)
    ensures descOps[nd.desc][nd.opid].kind == Insert ==> (IsKeyExist(nd, status, descOps) <==> status[nd.desc] == Committed)
    ensures descOps[nd.desc][nd.opid].kind == Delete ==> (IsKeyExist(nd, status, descOps) <==> status[nd.desc] != Committed)
  {
  }

  /** IsSameOperation */
  predicate IsSameOperation(a: NodeDesc, b: NodeDesc)
  {
    a.desc == b.desc && a.opid == b.opid
  }

  /** Keys strictly increase along the list, as LocatePred relies on. */
  predicate Sorted(nodes: seq<Node>)
  {
    forall i, j :: 0 <= i < j < |nodes| ==> nodes[i].key < nodes[j].key
  }

  /** The list read as a map from each key to its node's descriptor. */
  function View(nodes: seq<Node>): (m: map<nat, NodeDesc>)
    ensures |nodes| == 0 ==> m == map[]
  {
    if |nodes| == 0 then map[] else View(nodes[1..])[nodes[0].key := nodes[0].nodeDesc]
  }

  /** Every key of the view comes from a node. */
  lemma {:induction false} ViewKeys(nodes: seq<Node>, k: nat)
    requires k in View(nodes)
    ensures exists i :: 0 <= i < |nodes| && nodes[i].key == k
  {
    if k != nodes[0].key {
      ViewKeys(nodes[1..], k);
      var i :| 0 <= i < |nodes[1..]| && nodes[1..][i].key == k;
      assert nodes[i + 1].key == k;
    }
  }

  /** Every node of a sorted list is in the view, with its own descriptor. */
  lemma {:induction false} ViewHas(nodes: seq<Node>, i: nat)
    requires Sorted(nodes) && i < |nodes|
    ensures nodes[i].key in View(nodes) && View(nodes)[nodes[i].key] == nodes[i].nodeDesc
  {
    if i > 0 {
      ViewHas(nodes[1..], i - 1);
    }
  }

  /**
   * Where LocatePred stops (the first node whose key is not below `key`)
   * is the node holding `key` exactly when the key is in the view.
   */
  lemma ViewAtPosition(nodes: seq<Node>, i: nat, key: nat)
    requires Sorted(nodes) && i <= |nodes|
    requires forall j :: 0 <= j < i ==> nodes[j].key < key
    requires i < |nodes| ==> nodes[i].key >= key
    ensures key in View(nodes) <==> i < |nodes| && nodes[i].key == key
    ensures i < |nodes| && nodes[i].key == key ==> View(nodes)[key] == nodes[i].nodeDesc
  {
    if key in View(nodes) {
      ViewKeys(nodes, key);
    }
    if i < |nodes| {
      ViewHas(nodes, i);
    }
  }

  /** Splicing a node into its sorted position adds its key to the view and keeps the list sorted. */
  lemma {:induction false} ViewInsert(nodes: seq<Node>, i: nat, n: Node)
    requires Sorted(nodes) && i <= |nodes|
    requires forall j :: 0 <= j < i ==> nodes[j].key < n.key
    requires i < |nodes| ==> n.key < nodes[i].key
    ensures Sorted(nodes[..i] + [n] + nodes[i..])
    ensures View(nodes[..i] + [n] + nodes[i..]) == View(nodes)[n.key := n.nodeDesc]
  {
    SortedInsert(nodes, i, n);
    var spliced := nodes[..i] + [n] + nodes[i..];
    if i == 0 {
      assert spliced[1..] == nodes;
    } else {
      var rest := nodes[1..];
      assert spliced[1..] == rest[..i - 1] + [n] + rest[i - 1..];
      ViewInsert(rest, i - 1, n);
      assert spliced[0] == nodes[0];
    }
  }

  lemma SortedInsert(nodes: seq<Node>, i: nat, n: Node)
    requires Sorted(nodes) && i <= |nodes|
    requires forall j :: 0 <= j < i ==> nodes[j].key < n.key
    requires i < |nodes| ==> n.key < nodes[i].key
    ensures Sorted(nodes[..i] + [n] + nodes[i..])
  {
    var spliced := nodes[..i] + [n] + nodes[i..];
    forall a, b | 0 <= a < b < |spliced| ensures spliced[a].key < spliced[b].key {
      if b < i {
        assert spliced[a] == nodes[a] && spliced[b] == nodes[b];
      } else if b == i {
        assert spliced[a] == nodes[a];
      } else if a > i {
        assert spliced[a] == nodes[a - 1] && spliced[b] == nodes[b - 1];
      } else if a == i {
        assert spliced[b] == nodes[b - 1];
      } else {
        assert spliced[a] == nodes[a] && spliced[b] == nodes[b - 1];
      }
    }
  }

  /** Swapping one node's descriptor changes only that key's entry of the view. */
  lemma {:induction false} ViewUpdate(nodes: seq<Node>, i: nat, nd: NodeDesc)
    requires Sorted(nodes) && i < |nodes|
    ensures Sorted(nodes[i := Node(nodes[i].key, nd)])
    ensures View(nodes[i := Node(nodes[i].key, nd)]) == View(nodes)[nodes[i].key := nd]
  {
    var updated := nodes[i := Node(nodes[i].key, nd)];
    if i > 0 {
      assert updated[1..] == nodes[1..][i - 1 := Node(nodes[i].key, nd)];
      ViewUpdate(nodes[1..], i - 1, nd);
    } else {
      assert updated[1..] == nodes[1..];
    }
  }

  /** Every node descriptor of the view is well formed. */
  predicate ViewOk(v: map<nat, NodeDesc>, status: map<DescId, Status>, descOps: map<DescId, seq<Operator>>)
  {
    forall k :: k in v ==> DescOk(v[k], status, descOps)
  }

  /** The logical contents of the set: the keys whose node reads as present. */
  function KeySet(v: map<nat, NodeDesc>, status: map<DescId, Status>, descOps: map<DescId, seq<Operator>>): (s: set<nat>)
    requires ViewOk(v, status, descOps)
    ensures s <= v.Keys
  {
    set k | k in v && IsKeyExist(v[k], status, descOps)
  }

  /** Claiming one node moves only its key in or out of the set. */
  lemma KeySetUpdate(v: map<nat, NodeDesc>, key: nat, nd: NodeDesc,
                     status: map<DescId, Status>, descOps: map<DescId, seq<Operator>>)
    requires ViewOk(v, status, descOps) && DescOk(nd, status, descOps)
    ensures ViewOk(v[key := nd], status, descOps)
    ensures KeySet(v[key := nd], status, descOps) ==
      if IsKeyExist(nd, status, descOps) then KeySet(v, status, descOps) + {key}
      else KeySet(v, status, descOps) - {key}
  {
  }

  /** Two status maps that agree on which of the view's transactions committed give the same set. */
  lemma KeySetSameCommits(v: map<nat, NodeDesc>, s1: map<DescId, Status>, s2: map<DescId, Status>,
                          descOps: map<DescId, seq<Operator>>)
    requires ViewOk(v, s1, descOps) && ViewOk(v, s2, descOps)
    requires forall k :: k in v ==> (s1[v[k].desc] == Committed <==> s2[v[k].desc] == Committed)
    ensures KeySet(v, s1, descOps) == KeySet(v, s2, descOps)
  {
  }

  /** No node of the view has been claimed by transaction `d`. */
  predicate Untouched(v: map<nat, NodeDesc>, d: DescId)
  {
    forall k :: k in v ==> v[k].desc != d
  }

  /** Transaction `d` has claimed nodes only with operations lo .. hi-1. */
  predicate ClaimedBetween(v: map<nat, NodeDesc>, d: DescId, lo: nat, hi: nat)
  {
    forall k :: k in v && v[k].desc == d ==> lo <= v[k].opid < hi
  }

  /** The transactions still in progress. */
  function Actives(status: map<DescId, Status>): (a: set<DescId>)
    ensures a <= status.Keys
  {
    set d | d in status && status[d] == Active
  }

  /** Every transaction other than `d` has finished: nobody needs helping. */
  predicate QuietFor(status: map<DescId, Status>, d: DescId)
  {
    forall e :: e in status && e != d ==> status[e] != Active
  }

  /**
   * How the shared state may evolve: no transaction appears or disappears,
   * a finished transaction never changes status, and no key leaves the
   * list.
   */
  predicate Evolves(s0: map<DescId, Status>, s1: map<DescId, Status>, v0: map<nat, NodeDesc>, v1: map<nat, NodeDesc>)
  {
    s1.Keys == s0.Keys && (forall d :: d in s0 && s0[d] != Active ==> s1[d] == s0[d]) && v0.Keys <= v1.Keys
  }

  lemma EvolvesTransitive(s0: map<DescId, Status>, s1: map<DescId, Status>, s2: map<DescId, Status>,
                          v0: map<nat, NodeDesc>, v1: map<nat, NodeDesc>, v2: map<nat, NodeDesc>)
    requires Evolves(s0, s1, v0, v1) && Evolves(s1, s2, v1, v2)
    ensures Evolves(s0, s2, v0, v2)
    ensures Actives(s2) <= Actives(s1) <= Actives(s0)
  {
  }

  lemma EvolvesActives(s0: map<DescId, Status>, s1: map<DescId, Status>, v0: map<nat, NodeDesc>, v1: map<nat, NodeDesc>)
    requires Evolves(s0, s1, v0, v1)
    ensures Actives(s1) <= Actives(s0)
  {
  }

  /** Finishing an active transaction, whatever else finished meanwhile, leaves strictly fewer active ones. */
  lemma FinishingStrictlyShrinks(a0: set<DescId>, a1: set<DescId>, a2: set<DescId>, d: DescId)
    requires a1 <= a0 && a2 == a1 - {d} && d in a0
    ensures a2 < a0
  {
    assert d !in a2;
  }

  lemma SubsetCard<T>(a: set<T>, b: set<T>)
    requires a <= b
    ensures |a| <= |b|
    ensures a < b ==> |a| < |b|
  {
    assert b == a + (b - a);
    if a < b {
      var x :| x in b - a;
    }
  }

  /**
   * The helping measure: once `d` (active, not yet on the help stack) is
   * pushed, the active transactions not on the stack are strictly fewer
   * than before, however many finished in between.
   */
  lemma PushShrinksMeasure(a0: set<DescId>, a: set<DescId>, stack: set<DescId>, d: DescId)
    requires a <= a0 && d in a0 && d !in stack
    ensures |a - (stack + {d})| < |a0 - stack|
  {
    SubsetCard(a - (stack + {d}), a0 - stack);
  }

  /** The measure never grows while the stack is the same and transactions only finish. */
  lemma FinishingShrinksMeasure(a0: set<DescId>, a: set<DescId>, stack: set<DescId>)
    requires a <= a0
    ensures |a - stack| <= |a0 - stack|
  {
    SubsetCard(a - stack, a0 - stack);
  }

  /** ReturnCode of the list's operations: OK, SKIP (someone already did this very operation), FAIL. */
  datatype ReturnCode = Ok | Skip | Fail

  /**
   * What claiming the node of `key` for the operation `nd` does when no
   * other transaction needs helping: an operation already recorded on the
   * node is skipped; otherwise it succeeds, and the node (created if need
   * be) takes `nd`, exactly when the key's presence is the one the
   * operation needs and its transaction is still active; otherwise it
   * fails and nothing changes.
   */
  predicate ClaimOutcome(v0: map<nat, NodeDesc>, v1: map<nat, NodeDesc>, present: bool, active: bool,
                         key: nat, nd: NodeDesc, wantPresent: bool, ret: ReturnCode)
  {
    var claimed := key in v0 && v0[key] == nd;
    (if claimed then ret == Skip else if present == wantPresent && active then ret == Ok else ret == Fail) &&
    v1 == (if ret == Ok then v0[key := nd] else v0)
  }

  /**
   * The same outcome where the operations report only success or failure
   * (the skip list's): a repeated operation reports success and changes
   * nothing.
   */
  predicate ClaimResult(v0: map<nat, NodeDesc>, v1: map<nat, NodeDesc>, present: bool, active: bool,
                        key: nat, nd: NodeDesc, wantPresent: bool, ok: bool)
  {
    var claimed := key in v0 && v0[key] == nd;
    (if claimed then ok else ok == (present == wantPresent && active)) &&
    v1 == (if ok && !claimed then v0[key := nd] else v0)
  }

  /** When the node is not already claimed by this very operation, the two outcomes agree. */
  lemma ClaimResultCode(v0: map<nat, NodeDesc>, v1: map<nat, NodeDesc>, present: bool, active: bool,
                        key: nat, nd: NodeDesc, wantPresent: bool, ok: bool)
    requires ClaimResult(v0, v1, present, active, key, nd, wantPresent, ok)
    requires !(key in v0 && v0[key] == nd)
    ensures ClaimOutcome(v0, v1, present, active, key, nd, wantPresent, if ok then Ok else Fail)
  {
  }

  /**
   * Where an unhindered transaction stands after operations lo .. i-1:
   * it has claimed nodes only with them; the set read with the
   * transaction still open is the starting set; and either all of them
   * succeed against the starting set and the set read as committed is the
   * starting set with them applied, or (after a FAIL) not all of them
   * succeed.
   */
  predicate Progress(v: map<nat, NodeDesc>, status: map<DescId, Status>, descOps: map<DescId, seq<Operator>>,
                     desc: DescId, lo: nat, i: nat, s0: set<nat>, ret: ReturnCode)
  {
    ViewOk(v, status, descOps) && desc in status && desc in descOps && lo <= i <= |descOps[desc]| &&
    ClaimedBetween(v, desc, lo, i) && KeySet(v, status, descOps) == s0 &&
    (ret != Fail ==>
      AllSucceed(s0, descOps[desc][lo..i]) &&
      KeySet(v, status[desc := Committed], descOps) == Apply(s0, descOps[desc][lo..i])) &&
    (ret == Fail ==> !AllSucceed(s0, descOps[desc][lo..i]))
  }

  /** Before its first operation an untouched transaction has made no progress. */
  lemma ProgressStart(v: map<nat, NodeDesc>, status: map<DescId, Status>, descOps: map<DescId, seq<Operator>>,
                      desc: DescId, lo: nat, s0: set<nat>)
    requires ViewOk(v, status, descOps) && desc in status && desc in descOps && lo <= |descOps[desc]|
    requires Untouched(v, desc) && KeySet(v, status, descOps) == s0
    ensures Progress(v, status, descOps, desc, lo, lo, s0, Ok)
  {
    KeySetSameCommits(v, status, status[desc := Committed], descOps);
  }

  /**
   * One operation of an unhindered transaction: it succeeds exactly when
   * it succeeds against the starting set; the set read with the
   * transaction still open stays the starting set, and read as committed
   * it is the starting set with the operations so far applied.
   */
  lemma QuietStep(v0: map<nat, NodeDesc>, v1: map<nat, NodeDesc>, status: map<DescId, Status>,
                  descOps: map<DescId, seq<Operator>>, desc: DescId, opid: nat, i: nat, next: nat, s0: set<nat>, ret: ReturnCode)
    requires Progress(v0, status, descOps, desc, opid, i, s0, Ok) && i < |descOps[desc]| && status[desc] == Active
    requires next == i + 1
    requires var op := descOps[desc][i];
      ClaimOutcome(v0, v1, op.key in s0, true, op.key, NodeDesc(desc, i), op.kind != Insert, ret)
    ensures Progress(v1, status, descOps, desc, opid, next, s0, ret)
    ensures ret != Skip
  {
    var ops := descOps[desc];
    var op := ops[i];
    QuietOutcome(v0, v1, status, descOps, desc, opid, i, s0, ret);
    QuietSets(v0, v1, status, descOps, desc, opid, i, s0, ret == Ok);
    assert ops[opid..i + 1] == ops[opid..i] + [op];
    assert ops[opid..i + 1][i - opid] == op;
  }

  /** Unhindered, an operation is never skipped and succeeds exactly when it succeeds against the starting set. */
  lemma QuietOutcome(v0: map<nat, NodeDesc>, v1: map<nat, NodeDesc>, status: map<DescId, Status>,
                     descOps: map<DescId, seq<Operator>>, desc: DescId, opid: nat, i: nat, s0: set<nat>, ret: ReturnCode)
    requires ViewOk(v0, status, descOps) && desc in descOps && opid <= i < |descOps[desc]|
    requires ClaimedBetween(v0, desc, opid, i) && KeySet(v0, status, descOps) == s0
    requires var op := descOps[desc][i];
      ClaimOutcome(v0, v1, op.key in s0, true, op.key, NodeDesc(desc, i), op.kind != Insert, ret)
    ensures ret != Skip
    ensures ret == Ok <==> Succeeds(s0, descOps[desc][i])
    ensures v1 == if ret == Ok then v0[descOps[desc][i].key := NodeDesc(desc, i)] else v0
  {
  }

  /** The two readings of the set after one unhindered operation. */
  lemma QuietSets(v0: map<nat, NodeDesc>, v1: map<nat, NodeDesc>, status: map<DescId, Status>,
                  descOps: map<DescId, seq<Operator>>, desc: DescId, opid: nat, i: nat, s0: set<nat>, ok: bool)
    requires ViewOk(v0, status, descOps) && desc in status && desc in descOps && status[desc] == Active
    requires opid <= i < |descOps[desc]|
    requires ClaimedBetween(v0, desc, opid, i) && KeySet(v0, status, descOps) == s0
    requires KeySet(v0, status[desc := Committed], descOps) == Apply(s0, descOps[desc][opid..i])
    requires ok <==> Succeeds(s0, descOps[desc][i])
    requires v1 == if ok then v0[descOps[desc][i].key := NodeDesc(desc, i)] else v0
    ensures ViewOk(v1, status, descOps) && ClaimedBetween(v1, desc, opid, i + 1)
    ensures KeySet(v1, status, descOps) == s0
    ensures ok ==> KeySet(v1, status[desc := Committed], descOps) == Apply(s0, descOps[desc][opid..i] + [descOps[desc][i]])
  {
    var op := descOps[desc][i];
    var nd := NodeDesc(desc, i);
    KeySetUpdate(v0, op.key, nd, status, descOps);
    KeySetUpdate(v0, op.key, nd, status[desc := Committed], descOps);
    ApplySnoc(s0, descOps[desc][opid..i], op);
  }

  /** A transaction whose prefix fails fails as a whole. */
  lemma FailingPrefix(s: set<nat>, ops: seq<Operator>, n: nat)
    requires n <= |ops| && !AllSucceed(s, ops[..n])
    ensures !AllSucceed(s, ops)
  {
    var j :| 0 <= j < n && !Succeeds(s, ops[..n][j]);
    assert ops[j] == ops[..n][j];
  }

  // ---------------------------------------------------------------------
  // Reference semantics of a transaction
  // ---------------------------------------------------------------------

  /**
   * Whether an operation succeeds against a set: INSERT needs the key
   * absent, DELETE and FIND need it present.
   */
  predicate Succeeds(s: set<nat>, op: Operator)
  {
    match op.kind
    case Insert => op.key !in s
    case Delete => op.key in s
    case Find => op.key in s
  }

  /** The effect of an operation that succeeded: the key is present unless it was deleted. */
  function Step(s: set<nat>, op: Operator): (r: set<nat>)
    ensures op.kind == Delete ==> op.key !in r
    ensures op.kind != Delete ==> op.key in r
    ensures r - {op.key} == s - {op.key}
  {
    match op.kind
    case Insert => s + {op.key}
    case Delete => s - {op.key}
    case Find => s + {op.key}
  }

  /**
   * The all-or-nothing outcome of a transaction run from the set `s0`: it
   * commits exactly when every operation succeeds against `s0`, and the
   * set `s1` it leaves is then `s0` with the operations applied, and
   * otherwise `s0` itself.
   */
  predicate TxnOutcome(s0: set<nat>, ops: seq<Operator>, committed: bool, s1: set<nat>)
  {
    (committed <==> AllSucceed(s0, ops)) && s1 == (if committed then Apply(s0, ops) else s0)
  }

  /** Every operation succeeds against the same starting set. */
  predicate AllSucceed(s: set<nat>, ops: seq<Operator>)
  {
    forall j :: 0 <= j < |ops| ==> Succeeds(s, ops[j])
  }

  /** The effects of the operations, in order. */
  function Apply(s: set<nat>, ops: seq<Operator>): (r: set<nat>)
    decreases |ops|
  {
    if |ops| == 0 then s else Apply(Step(s, ops[0]), ops[1..])
  }

  lemma {:induction false} ApplySnoc(s: set<nat>, ops: seq<Operator>, op: Operator)
    ensures Apply(s, ops + [op]) == Step(Apply(s, ops), op)
    decreases |ops|
  {
    if |ops| == 0 {
      assert (ops + [op])[1..] == [];
    } else {
      assert (ops + [op])[1..] == ops[1..] + [op];
      ApplySnoc(Step(s, ops[0]), ops[1..], op);
    }
  }

  /**
   * The serial reading of a transaction: each operation checked against
   * the set its predecessors left, the whole aborting (None) at the first
   * failure.
   */
  function Serial(s: set<nat>, ops: seq<Operator>): (r: Option)
    decreases |ops|
  {
    if |ops| == 0 then Some(s)
    else if !Succeeds(s, ops[0]) then None
    else Serial(Step(s, ops[0]), ops[1..])
  }

  datatype Option = None | Some(value: set<nat>)

  predicate DistinctKeys(ops: seq<Operator>)
  {
    forall i, j :: 0 <= i < j < |ops| ==> ops[i].key != ops[j].key
  }

  /**
   * When no two operations share a key, checking every operation against
   * the starting set (what the descriptors implement) agrees with serial
   * execution, outcome and result.
   */
  lemma {:induction false} SerialAgrees(s: set<nat>, ops: seq<Operator>)
    requires DistinctKeys(ops)
    ensures Serial(s, ops).Some? <==> AllSucceed(s, ops)
    ensures AllSucceed(s, ops) ==> Serial(s, ops) == Some(Apply(s, ops))
    decreases |ops|
  {
    if |ops| > 0 {
      var s1 := Step(s, ops[0]);
      var rest := ops[1..];
      assert DistinctKeys(rest);
      forall j | 0 <= j < |rest|
        ensures Succeeds(s1, rest[j]) == Succeeds(s, rest[j])
      {
        assert rest[j] == ops[j + 1];
      }
      SerialAgrees(s1, rest);
      if AllSucceed(s, ops) {
        assert AllSucceed(s1, rest) by {
          forall j | 0 <= j < |rest| ensures Succeeds(s1, rest[j]) {
            assert rest[j] == ops[j + 1];
          }
        }
      }
      if AllSucceed(s1, rest) && Succeeds(s, ops[0]) {
        assert AllSucceed(s, ops) by {
          forall j | 0 <= j < |ops| ensures Succeeds(s, ops[j]) {
            if j > 0 {
              assert ops[j] == rest[j - 1];
            }
          }
        }
      }
    }
  }

  /**
   * With a repeated key the two readings part: DELETE then FIND of a
   * present key commits and leaves it present, while serially the FIND
   * fails.
   */
  lemma DeleteThenFindKeepsKey(s: set<nat>, k: nat)
    requires k in s
    ensures AllSucceed(s, [Operator(Delete, k), Operator(Find, k)])
    ensures k in Apply(s, [Operator(Delete, k), Operator(Find, k)])
    ensures Serial(s, [Operator(Delete, k), Operator(Find, k)]) == None
  {
    var ops := [Operator(Delete, k), Operator(Find, k)];
    assert ops[1..] == [Operator(Find, k)];
    assert Apply(s, ops) == Apply(s - {k}, [Operator(Find, k)]);
    assert Apply(s - {k}, [Operator(Find, k)]) == Apply(s - {k} + {k}, []);
  }

  /** INSERT then FIND of an absent key aborts, while serially it commits. */
  lemma InsertThenFindAborts(s: set<nat>, k: nat)
    requires k !in s
    ensures !AllSucceed(s, [Operator(Insert, k), Operator(Find, k)])
    ensures Serial(s, [Operator(Insert, k), Operator(Find, k)]) == Some(s + {k})
  {
    var ops := [Operator(Insert, k), Operator(Find, k)];
    assert !Succeeds(s, ops[1]);
    assert ops[1..] == [Operator(Find, k)];
    assert Serial(s, ops) == Serial(s + {k}, [Operator(Find, k)]);
    assert Serial(s + {k}, [Operator(Find, k)]) == Serial(s + {k} + {k}, []);
  }
}
