/** Whole runs of store operations and EpochQL statements. */
module StoreRuns {
  import opened Bytes
  import opened HamtNode
  import opened MemCas
  import opened Commits
  import opened Walks
  import opened Dag
  import opened DiskStores

  datatype Op =
    | StoreCommit(parents: seq<Hash>, root: Hash, indexRoots: Roots, timestamp: nat, message: seq<byte>)
    | StoreNodes(nodes: seq<Record>)
    | Load(hash: Hash)
    | CreateBranch(name: string, hash: Hash)
    | UpdateBranch(name: string, hash: Hash)
    | DeleteBranch(name: string)
    | SetHead(name: string)
    | Reopen(limit: nat)
    | CommitStmt(given: Option<seq<Target>>, nodes: seq<Record>, roots: Result<(Hash, Roots)>, timestamp: nat,
                 message: seq<byte>)
    | BranchStmt(name: string, from: Option<Target>)
    | CheckoutStmt(target: Target)
    | MergeStmt(source: Target, into: Target, fastForward: bool)

  /** Trie nodes are not commits, and a PARENTS list is not empty. */
  ghost predicate Callable(op: Op) {
    match op
    case StoreNodes(nodes) => forall i :: 0 <= i < |nodes| ==> nodes[i].ty != CommitRecord
    case CommitStmt(given, nodes, _, _, _) =>
      (given.Some? ==> given.value != []) && forall i :: 0 <= i < |nodes| ==> nodes[i].ty != CommitRecord
    case _ => true
  }

  /** No explicit PARENTS, and no direct move of a branch. */
  predicate MovesForward(op: Op) {
    !op.UpdateBranch? && !(op.CommitStmt? && op.given.Some?)
  }

  ghost predicate Step(H: Hasher, op: Op, v: View, w: View) {
    && Later(v, w)
    && (HeadNamed(v) ==> HeadNamed(w))
    && (MovesForward(op) && Honest(H, w) ==> Forward(v, w))
  }

  /** What holds of every state: tips and parents are stored, and no commit descends from itself. */
  ghost predicate Sane(v: View) {
    && TipsStored(v)
    && ParentsIn(CommitGraph(v.objects), v.objects.Keys)
    && Acyclic(CommitGraph(v.objects))
  }

  ghost predicate ParentsIn(g: Graph, stored: set<Hash>) {
    forall h, p :: h in g && p in g[h] ==> p in stored
  }

  lemma RankedParents(g: Graph, rank: map<Hash, nat>)
    requires Ranked(g, rank)
    ensures ParentsIn(g, rank.Keys) && Acyclic(g)
  {
    NoCycle(g, rank);
  }

  lemma KeptIsSane(H: Hasher, v: View, born: map<Hash, nat>, clock: nat, cached: map<Hash, Commit>)
    requires Kept(H, v, born, clock, cached)
    ensures Sane(v)
  {
    RankedParents(CommitGraph(v.objects), born);
  }

  // The ancestors of a new commit.

  /** What is reached, is reached through a neighbour or without a hop. */
  lemma ReachFirst(g: Graph, x: Hash, y: Hash)
    ensures Reach(g, x, y) <==> x == y || exists p: Hash :: p in Next(g, x) && Reach(g, p, y)
  {
    if x == y {
      ReachSelf(g, x);
    } else if Reach(g, x, y) {
      var n: nat :| Walk(g, x, n, y);
      assert n > 0;
      WalkFirst(g, x, n - 1, y);
      var p: Hash :| p in Next(g, x) && Walk(g, p, n - 1, y);
      assert Reach(g, p, y);
    } else {
      forall p: Hash | p in Next(g, x)
        ensures !Reach(g, p, y)
      {
        ReachVia(g, x, p, y);
      }
    }
  }

  lemma ReachVia(g: Graph, x: Hash, p: Hash, y: Hash)
    requires p in Next(g, x)
    ensures Reach(g, p, y) ==> Reach(g, x, y)
  {
    if Reach(g, p, y) {
      assert Walk(g, x, 0, x);
      WalkStep(g, x, 0, x, p);
      ReachTransitive(g, x, p, y);
    }
  }

  /**
   * A commit that moves a branch keeps the old tip in its history exactly when a parent does, or the tip stays.
   */
  lemma CommitForward(v: View, w: View, name: string, made: Commit)
    requires name in v.branches && name in w.branches
    requires w.branches == v.branches[name := w.branches[name]]
    requires Decoded(w.objects, w.branches[name]) == Ok(made)
    ensures Forward(v, w) <==> w.branches[name] == v.branches[name]
                               || exists p: Hash :: p in made.parents && Reach(CommitGraph(w.objects), p, v.branches[name])
  {
    var g := CommitGraph(w.objects);
    assert Next(g, w.branches[name]) == made.parents;
    ReachFirst(g, w.branches[name], v.branches[name]);
    if Reach(g, w.branches[name], v.branches[name]) {
      ForwardOne(v, w, name);
    }
  }

  lemma TipForward(v: View, w: View, name: string, made: Commit)
    requires name in v.branches && name in w.branches
    requires w.branches == v.branches[name := w.branches[name]]
    requires Decoded(w.objects, w.branches[name]) == Ok(made) && v.branches[name] in made.parents
    ensures Forward(v, w)
  {
    ReachSelf(CommitGraph(w.objects), v.branches[name]);
    CommitForward(v, w, name, made);
  }

  // Runs.

  method Perform(store: DiskStore, op: Op) returns (loaded: Result<Commit>)
    requires store.Valid() && Callable(op)
    modifies store, store.cache
    ensures store.Valid() && (store.cache == old(store.cache) || fresh(store.cache))
    ensures Step(store.H, op, old(store.See()), store.See())
    ensures op.Load? && Honest(store.H, store.See()) ==> loaded == Decoded(store.objects, op.hash)
  {
    loaded := Err(ExecError);
    match op {
      case Load(hash) =>
        loaded := store.LoadCommit(hash);
        ForwardSame(old(store.See()), store.See());
      case StoreCommit(_, _, _, _, _) =>
        StoreStep(store, op);
      case StoreNodes(_) =>
        StoreStep(store, op);
      case Reopen(_) =>
        StoreStep(store, op);
      case CommitStmt(_, _, _, _, _) =>
        CommitStep(store, op);
      case CheckoutStmt(_) =>
        StmtStep(store, op);
      case MergeStmt(_, _, _) =>
        StmtStep(store, op);
      case _ =>
        BranchStep(store, op);
    }
  }

  method StoreStep(store: DiskStore, op: Op)
    requires store.Valid() && Callable(op) && (op.StoreCommit? || op.StoreNodes? || op.Reopen?)
    modifies store, store.cache
    ensures store.Valid() && (store.cache == old(store.cache) || fresh(store.cache))
    ensures Step(store.H, op, old(store.See()), store.See())
  {
    match op {
      case StoreCommit(parents, root, indexRoots, timestamp, message) =>
        var r, made := store.CommitWithIndexes(parents, root, indexRoots, timestamp, message);
      case StoreNodes(nodes) =>
        store.PutNodes(nodes);
      case Reopen(limit) =>
        store.ForgetCache(limit);
    }
    ForwardSame(old(store.See()), store.See());
  }

  method StmtStep(store: DiskStore, op: Op)
    requires store.Valid() && (op.CheckoutStmt? || op.MergeStmt?)
    modifies store, store.cache
    ensures store.Valid() && store.cache == old(store.cache)
    ensures Step(store.H, op, old(store.See()), store.See())
  {
    if op.CheckoutStmt? {
      var r := store.ExecCheckout(op.target);
      ForwardSame(old(store.See()), store.See());
    } else {
      var r := store.ExecMerge(op.source, op.into, op.fastForward);
      if r.Err? {
        ForwardSame(old(store.See()), store.See());
      }
    }
  }

  method BranchStep(store: DiskStore, op: Op)
    requires store.Valid()
    requires op.CreateBranch? || op.UpdateBranch? || op.DeleteBranch? || op.SetHead? || op.BranchStmt?
    modifies store
    ensures store.Valid() && store.cache == old(store.cache)
    ensures Step(store.H, op, old(store.See()), store.See())
  {
    if op.CreateBranch? || op.UpdateBranch? {
      TipStep(store, op);
    } else {
      RefStep(store, op);
    }
  }

  method TipStep(store: DiskStore, op: Op)
    requires store.Valid() && (op.CreateBranch? || op.UpdateBranch?)
    modifies store
    ensures store.Valid() && store.cache == old(store.cache)
    ensures Step(store.H, op, old(store.See()), store.See())
  {
    if op.CreateBranch? {
      var r := store.CreateBranch(op.name, op.hash);
    } else {
      var r := store.UpdateBranch(op.name, op.hash);
    }
    BranchesMoved(store.H, op, old(store.See()), store.See());
  }

  method RefStep(store: DiskStore, op: Op)
    requires store.Valid() && (op.DeleteBranch? || op.SetHead? || op.BranchStmt?)
    modifies store
    ensures store.Valid() && store.cache == old(store.cache)
    ensures Step(store.H, op, old(store.See()), store.See())
  {
    match op {
      case DeleteBranch(name) =>
        var r := store.DeleteBranch(name);
      case SetHead(name) =>
        var r := store.SetHead(name);
      case BranchStmt(name, from) =>
        var r := store.ExecBranch(name, from);
    }
    BranchesMoved(store.H, op, old(store.See()), store.See());
  }

  lemma BranchesMoved(H: Hasher, op: Op, v: View, w: View)
    requires w == v.(branches := w.branches, head := w.head) && (HeadNamed(v) ==> HeadNamed(w))
    requires !op.UpdateBranch? ==> forall n :: n in v.branches && n in w.branches ==> w.branches[n] == v.branches[n]
    ensures Step(H, op, v, w)
  {
    if !op.UpdateBranch? {
      ForwardSame(v, w);
    }
  }

  method CommitStep(store: DiskStore, op: Op)
    requires store.Valid() && op.CommitStmt? && Callable(op)
    modifies store, store.cache
    ensures store.Valid() && store.cache == old(store.cache)
    ensures Step(store.H, op, old(store.See()), store.See())
  {
    var r, made := store.ExecCommit(op.given, op.nodes, op.roots, op.timestamp, op.message);
    if r.Err? {
      ForwardSame(old(store.See()), store.See());
    } else if MovesForward(op) && Honest(store.H, store.See()) {
      assert made.parents[0] == old(store.See()).branches[store.head.value];
      TipForward(old(store.See()), store.See(), store.head.value, made);
    }
  }

  ghost predicate IsRun(H: Hasher, ops: seq<Op>, trace: seq<View>) {
    && |trace| == |ops| + 1
    && forall i :: 0 <= i < |ops| ==> Step(H, ops[i], trace[i], trace[i + 1])
  }

  /** Loads answer with what decoding the stored record yields. */
  ghost predicate Answered(H: Hasher, ops: seq<Op>, trace: seq<View>, loaded: seq<Result<Commit>>) {
    && |trace| == |ops| + 1 && |loaded| == |ops|
    && forall i :: 0 <= i < |ops| ==> AnswerIs(H, ops[i], trace[i + 1], loaded[i])
  }

  ghost predicate AnswerIs(H: Hasher, op: Op, v: View, answer: Result<Commit>) {
    op.Load? && Honest(H, v) ==> answer == Decoded(v.objects, op.hash)
  }

  ghost predicate AllSane(trace: seq<View>) {
    forall i :: 0 <= i < |trace| ==> Sane(trace[i])
  }

  lemma RunGrows(H: Hasher, ops: seq<Op>, op: Op, trace: seq<View>, w: View,
                 loaded: seq<Result<Commit>>, answer: Result<Commit>)
    requires IsRun(H, ops, trace) && Answered(H, ops, trace, loaded) && AllSane(trace)
    requires Step(H, op, trace[|ops|], w) && AnswerIs(H, op, w, answer) && Sane(w)
    ensures IsRun(H, ops + [op], trace + [w]) && Answered(H, ops + [op], trace + [w], loaded + [answer])
    ensures AllSane(trace + [w])
  {}

  method Run(store: DiskStore, ops: seq<Op>) returns (loaded: seq<Result<Commit>>, ghost trace: seq<View>)
    requires store.Valid() && forall i :: 0 <= i < |ops| ==> Callable(ops[i])
    modifies store, store.cache
    ensures store.Valid() && IsRun(store.H, ops, trace)
    ensures trace[0] == old(store.See()) && trace[|ops|] == store.See()
    ensures AllSane(trace) && Answered(store.H, ops, trace, loaded)
  {
    loaded, trace := [], [store.See()];
    KeptIsSane(store.H, store.See(), store.born, store.clock, store.cache.entries);
    for k := 0 to |ops|
      invariant store.Valid() && (store.cache == old(store.cache) || fresh(store.cache))
      invariant IsRun(store.H, ops[..k], trace) && Answered(store.H, ops[..k], trace, loaded) && AllSane(trace)
      invariant trace[0] == old(store.See()) && trace[k] == store.See()
    {
      var answer := PerformSane(store, ops[k]);
      RunGrows(store.H, ops[..k], ops[k], trace, store.See(), loaded, answer);
      assert ops[..k + 1] == ops[..k] + [ops[k]];
      loaded, trace := loaded + [answer], trace + [store.See()];
    }
    assert ops[..|ops|] == ops;
  }

  method PerformSane(store: DiskStore, op: Op) returns (loaded: Result<Commit>)
    requires store.Valid() && Callable(op)
    modifies store, store.cache
    ensures store.Valid() && (store.cache == old(store.cache) || fresh(store.cache))
    ensures Step(store.H, op, old(store.See()), store.See()) && Sane(store.See())
    ensures AnswerIs(store.H, op, store.See(), loaded)
  {
    loaded := Perform(store, op);
    KeptIsSane(store.H, store.See(), store.born, store.clock, store.cache.entries);
  }

  // What every run keeps.

  ghost predicate Survives(trace: seq<View>, i: nat, j: nat, name: string)
    requires i <= j < |trace|
  {
    forall k :: i <= k <= j ==> name in trace[k].branches
  }

  lemma {:induction false} RunLater(H: Hasher, ops: seq<Op>, trace: seq<View>, i: nat, j: nat)
    requires IsRun(H, ops, trace) && i <= j < |trace|
    ensures Later(trace[i], trace[j]) && (HeadNamed(trace[i]) ==> HeadNamed(trace[j]))
    ensures Honest(H, trace[j]) ==> Honest(H, trace[i])
    decreases j
  {
    if i < j {
      RunLater(H, ops, trace, i, j - 1);
      assert Step(H, ops[j - 1], trace[j - 1], trace[j]);
      LaterTransitive(trace[i], trace[j - 1], trace[j]);
    }
    if Honest(H, trace[j]) {
      HonestBefore(H, trace[i], trace[j]);
    }
  }

  /** While a branch survives statements without PARENTS, each of its old tips stays in the history of the new one. */
  lemma {:induction false} TipHistory(H: Hasher, ops: seq<Op>, trace: seq<View>, i: nat, j: nat, name: string)
    requires IsRun(H, ops, trace) && i <= j < |trace| && Survives(trace, i, j, name)
    requires forall k :: i <= k < j ==> MovesForward(ops[k])
    requires Honest(H, trace[j])
    ensures Reach(CommitGraph(trace[j].objects), trace[j].branches[name], trace[i].branches[name])
    decreases j
  {
    if i == j {
      ReachSelf(CommitGraph(trace[j].objects), trace[i].branches[name]);
    } else {
      StepForward(H, ops, trace, j - 1);
      TipHistory(H, ops, trace, i, j - 1, name);
      TipCarried(trace[j - 1], trace[j], name, trace[i].branches[name]);
    }
  }

  lemma StepForward(H: Hasher, ops: seq<Op>, trace: seq<View>, k: nat)
    requires IsRun(H, ops, trace) && k < |ops| && MovesForward(ops[k]) && Honest(H, trace[k + 1])
    ensures Honest(H, trace[k]) && Later(trace[k], trace[k + 1]) && Forward(trace[k], trace[k + 1])
  {
    assert Step(H, ops[k], trace[k], trace[k + 1]);
    HonestBefore(H, trace[k], trace[k + 1]);
  }

  lemma TipCarried(v: View, w: View, name: string, h: Hash)
    requires Later(v, w) && Forward(v, w) && name in v.branches && name in w.branches
    requires Reach(CommitGraph(v.objects), v.branches[name], h)
    ensures Reach(CommitGraph(w.objects), w.branches[name], h)
  {
    ReachGrows(v.objects, w.objects, v.branches[name], h);
    ReachTransitive(CommitGraph(w.objects), w.branches[name], v.branches[name], h);
  }
}
