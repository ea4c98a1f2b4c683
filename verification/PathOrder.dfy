/** The order in which a breadth-first search meets commits: shorter paths first, then by the turns taken. */
module PathOrder {
  import opened Bytes
  import opened Walks

  /** A path given by its turns: the number of the neighbour taken at each commit. */
  type Turns = seq<nat>

  ghost function Follow(g: Graph, b: Hash, p: Turns): Option<Hash>
    decreases |p|
  {
    if p == [] then Some(b) else
      match Follow(g, b, p[..|p| - 1])
      case None => None
      case Some(z) => if p[|p| - 1] < |Next(g, z)| then Some(Next(g, z)[p[|p| - 1]]) else None
  }

  ghost predicate Lex(p: Turns, q: Turns)
    requires |p| == |q|
    decreases |p|
  {
    p != [] &&
    var n := |p| - 1;
    Lex(p[..n], q[..n]) || (p[..n] == q[..n] && p[n] < q[n])
  }

  ghost predicate Before(p: Turns, q: Turns) {
    |p| < |q| || (|p| == |q| && Lex(p, q))
  }

  ghost predicate NotAfter(p: Turns, q: Turns) {
    p == q || Before(p, q)
  }

  // It is a total order.

  lemma {:induction false} LexTotal(p: Turns, q: Turns)
    requires |p| == |q|
    ensures Lex(p, q) || p == q || Lex(q, p)
    decreases |p|
  {
    if p != [] {
      var n := |p| - 1;
      LexTotal(p[..n], q[..n]);
      assert p == p[..n] + [p[n]] && q == q[..n] + [q[n]];
    }
  }

  lemma {:induction false} LexTransitive(p: Turns, q: Turns, r: Turns)
    requires |p| == |q| == |r| && Lex(p, q) && Lex(q, r)
    ensures Lex(p, r)
    decreases |p|
  {
    var n := |p| - 1;
    if Lex(p[..n], q[..n]) && Lex(q[..n], r[..n]) {
      LexTransitive(p[..n], q[..n], r[..n]);
    }
  }

  lemma {:induction false} LexIrreflexive(p: Turns)
    ensures !Lex(p, p)
    decreases |p|
  {
    if p != [] {
      LexIrreflexive(p[..|p| - 1]);
    }
  }

  lemma BeforeTotal(p: Turns, q: Turns)
    ensures Before(p, q) || p == q || Before(q, p)
  {
    if |p| == |q| {
      LexTotal(p, q);
    }
  }

  lemma BeforeTransitive(p: Turns, q: Turns, r: Turns)
    requires NotAfter(p, q) && NotAfter(q, r)
    ensures NotAfter(p, r) && (Before(p, q) || Before(q, r) ==> Before(p, r))
  {
    if |p| == |q| == |r| && Lex(p, q) && Lex(q, r) {
      LexTransitive(p, q, r);
    }
  }

  lemma BeforeIrreflexive(p: Turns, q: Turns)
    requires Before(p, q)
    ensures p != q && !Before(q, p)
  {
    LexIrreflexive(p);
    if Before(q, p) {
      LexTransitive(p, q, p);
    }
  }

  lemma BeforeExtend(p: Turns, q: Turns, i: nat, j: nat)
    ensures Before(p, q) ==> Before(p + [i], q + [j])
    ensures i < j ==> Before(p + [i], p + [j])
    ensures NotAfter(p, q) ==> NotAfter(p + [i], q + [i])
  {
    assert (p + [i])[..|p|] == p && (q + [j])[..|q|] == q && (p + [j])[..|p|] == p && (q + [i])[..|q|] == q;
  }

  // Paths and walks.

  lemma {:induction false} FollowWalk(g: Graph, b: Hash, p: Turns, x: Hash)
    requires Follow(g, b, p) == Some(x)
    ensures Walk(g, b, |p|, x)
    decreases |p|
  {
    if p != [] {
      var z := Follow(g, b, p[..|p| - 1]).value;
      FollowWalk(g, b, p[..|p| - 1], z);
      WalkStep(g, b, |p| - 1, z, x);
    }
  }

  lemma {:induction false} WalkFollow(g: Graph, b: Hash, n: nat, x: Hash) returns (p: Turns)
    requires Walk(g, b, n, x)
    ensures |p| == n && Follow(g, b, p) == Some(x)
    decreases n
  {
    if n == 0 {
      p := [];
    } else {
      var z := WalkBefore(g, b, n - 1, x);
      var q := WalkFollow(g, b, n - 1, z);
      var i :| 0 <= i < |Next(g, z)| && Next(g, z)[i] == x;
      p := q + [i];
      assert p[..n - 1] == q;
    }
  }

  // The search.

  ghost predicate ListedBy(order: seq<Hash>, paths: seq<Turns>, y: Hash, p: Turns)
    requires |order| == |paths|
  {
    exists j :: 0 <= j < |order| && order[j] == y && NotAfter(paths[j], p)
  }

  /** Every path leads to its commit. */
  ghost predicate Leads(g: Graph, b: Hash, order: seq<Hash>, paths: seq<Turns>) {
    |order| == |paths| && forall i :: 0 <= i < |order| ==> Follow(g, b, paths[i]) == Some(order[i])
  }

  ghost predicate Increasing(paths: seq<Turns>) {
    forall i, j :: 0 <= i < j < |paths| ==> Before(paths[i], paths[j])
  }

  /** The first `n` neighbours of a commit are listed in time. */
  ghost predicate Turned(g: Graph, order: seq<Hash>, paths: seq<Turns>, i: nat, n: nat)
    requires |order| == |paths| && i < |order| && n <= |Next(g, order[i])|
  {
    forall l :: 0 <= l < n ==> ListedBy(order, paths, Next(g, order[i])[l], paths[i] + [l])
  }

  /** Every listed commit has a path, the paths increase, and what has been expanded lists its neighbours in time. */
  ghost predicate Mapped(g: Graph, b: Hash, order: seq<Hash>, paths: seq<Turns>, head: nat) {
    && Leads(g, b, order, paths) && Increasing(paths)
    && 0 < |order| && head <= |order| && order[0] == b && paths[0] == []
    && forall i :: 0 <= i < head ==> Turned(g, order, paths, i, |Next(g, order[i])|)
  }

  /** Nothing is listed that lies behind the next turn. */
  ghost predicate InTime(paths: seq<Turns>, head: nat, k: nat) {
    head < |paths| ==> forall j :: 0 <= j < |paths| ==> Before(paths[j], paths[head] + [k])
  }

  ghost predicate Turning(g: Graph, b: Hash, order: seq<Hash>, paths: seq<Turns>, head: nat, k: nat) {
    && Mapped(g, b, order, paths, head) && InTime(paths, head, k)
    && head < |order| && k <= |Next(g, order[head])|
    && Turned(g, order, paths, head, k)
  }

  function Pushed(order: seq<Hash>, next: seq<Hash>): (o: seq<Hash>)
    ensures order <= o
  {
    if next == [] then order else
      var o := Pushed(order, next[..|next| - 1]);
      if next[|next| - 1] in o then o else o + [next[|next| - 1]]
  }

  lemma PushedStep(order: seq<Hash>, next: seq<Hash>, k: nat)
    requires k < |next|
    ensures var o := Pushed(order, next[..k]);
            Pushed(order, next[..k + 1]) == if next[k] in o then o else o + [next[k]]
  {
    assert next[..k + 1][..k] == next[..k];
  }

  lemma MappedBegins(g: Graph, b: Hash)
    ensures Mapped(g, b, [b], [[]], 0) && InTime([[]], 0, 0)
  {}

  lemma ListedGrows(order: seq<Hash>, paths: seq<Turns>, y: Hash, p: Turns, z: Hash, q: Turns)
    requires |order| == |paths|
    ensures ListedBy(order, paths, z, q) ==> ListedBy(order + [y], paths + [p], z, q)
    ensures ListedBy(order + [y], paths + [p], y, p)
  {
    var order', paths' := order + [y], paths + [p];
    assert order'[|order|] == y && paths'[|order|] == p;
    if j :| 0 <= j < |order| && order[j] == z && NotAfter(paths[j], q) {
      assert order'[j] == z && paths'[j] == paths[j];
    }
  }

  lemma TurnOld(g: Graph, b: Hash, order: seq<Hash>, paths: seq<Turns>, head: nat, k: nat)
    requires Turning(g, b, order, paths, head, k) && k < |Next(g, order[head])| && Next(g, order[head])[k] in order
    ensures Turning(g, b, order, paths, head, k + 1)
  {
    var y := Next(g, order[head])[k];
    var j :| 0 <= j < |order| && order[j] == y;
    assert ListedBy(order, paths, y, paths[head] + [k]);
    NextTurn(paths, head, k);
  }

  lemma NextTurn(paths: seq<Turns>, head: nat, k: nat)
    requires head < |paths| && InTime(paths, head, k)
    ensures InTime(paths, head, k + 1)
  {
    BeforeExtend(paths[head], paths[head], k, k + 1);
    forall j | 0 <= j < |paths|
      ensures Before(paths[j], paths[head] + [k + 1])
    {
      BeforeTransitive(paths[j], paths[head] + [k], paths[head] + [k + 1]);
    }
  }

  lemma TurnNew(g: Graph, b: Hash, order: seq<Hash>, paths: seq<Turns>, head: nat, k: nat, y: Hash, p: Turns)
    requires Turning(g, b, order, paths, head, k) && k < |Next(g, order[head])|
    requires y == Next(g, order[head])[k] && p == paths[head] + [k]
    ensures Turning(g, b, order + [y], paths + [p], head, k + 1)
  {
    assert Follow(g, b, p) == Some(y) by {
      assert p[..|p| - 1] == paths[head];
    }
    MappedGrows(g, b, order, paths, head, y, p);
    InTimeGrows(paths, head, k, p);
    TurnedGrows(g, order, paths, head, k, y, p);
    ListedGrows(order, paths, y, p, y, p);
    OneMoreTurned(g, order + [y], paths + [p], head, k);
  }

  lemma OneMoreTurned(g: Graph, order: seq<Hash>, paths: seq<Turns>, i: nat, n: nat)
    requires |order| == |paths| && i < |order| && n < |Next(g, order[i])| && Turned(g, order, paths, i, n)
    requires ListedBy(order, paths, Next(g, order[i])[n], paths[i] + [n])
    ensures Turned(g, order, paths, i, n + 1)
  {}

  lemma MappedGrows(g: Graph, b: Hash, order: seq<Hash>, paths: seq<Turns>, head: nat, y: Hash, p: Turns)
    requires Mapped(g, b, order, paths, head) && Follow(g, b, p) == Some(y)
    requires forall i :: 0 <= i < |paths| ==> Before(paths[i], p)
    ensures Mapped(g, b, order + [y], paths + [p], head)
  {
    var order', paths' := order + [y], paths + [p];
    forall i | 0 <= i < head
      ensures Turned(g, order', paths', i, |Next(g, order'[i])|)
    {
      assert order'[i] == order[i];
      TurnedGrows(g, order, paths, i, |Next(g, order[i])|, y, p);
    }
    IncreasingGrows(paths, p);
    LeadsGrows(g, b, order, paths, y, p);
  }

  lemma LeadsGrows(g: Graph, b: Hash, order: seq<Hash>, paths: seq<Turns>, y: Hash, p: Turns)
    requires Leads(g, b, order, paths) && Follow(g, b, p) == Some(y)
    ensures Leads(g, b, order + [y], paths + [p])
  {}

  lemma InTimeGrows(paths: seq<Turns>, head: nat, k: nat, p: Turns)
    requires head < |paths| && InTime(paths, head, k) && p == paths[head] + [k]
    ensures InTime(paths + [p], head, k + 1)
  {
    NextTurn(paths, head, k);
    BeforeExtend(paths[head], paths[head], k, k + 1);
  }

  lemma IncreasingGrows(paths: seq<Turns>, p: Turns)
    requires Increasing(paths) && forall i :: 0 <= i < |paths| ==> Before(paths[i], p)
    ensures Increasing(paths + [p])
  {}

  lemma TurnedGrows(g: Graph, order: seq<Hash>, paths: seq<Turns>, i: nat, n: nat, y: Hash, p: Turns)
    requires |order| == |paths| && i < |order| && n <= |Next(g, order[i])| && Turned(g, order, paths, i, n)
    ensures Turned(g, order + [y], paths + [p], i, n)
  {
    forall l | 0 <= l < n
      ensures ListedBy(order + [y], paths + [p], Next(g, order[i])[l], paths[i] + [l])
    {
      ListedGrows(order, paths, y, p, Next(g, order[i])[l], paths[i] + [l]);
    }
  }

  lemma TurnsDone(g: Graph, b: Hash, order: seq<Hash>, paths: seq<Turns>, head: nat)
    requires head < |order| && Turning(g, b, order, paths, head, |Next(g, order[head])|)
    ensures Mapped(g, b, order, paths, head + 1) && InTime(paths, head + 1, 0)
  {
    var n := |Next(g, order[head])|;
    if head + 1 < |order| {
      BeforeExtend(paths[head], paths[head + 1], n, 0);
      forall j | 0 <= j < |paths|
        ensures Before(paths[j], paths[head + 1] + [0])
      {
        BeforeTransitive(paths[j], paths[head] + [n], paths[head + 1] + [0]);
      }
    }
  }

  lemma TurnOne(g: Graph, b: Hash, order: seq<Hash>, paths: seq<Turns>, head: nat, k: nat, y: Hash)
    returns (paths': seq<Turns>)
    requires Turning(g, b, order, paths, head, k) && k < |Next(g, order[head])| && y == Next(g, order[head])[k]
    ensures paths <= paths' && Turning(g, b, if y in order then order else order + [y], paths', head, k + 1)
  {
    if y in order {
      TurnOld(g, b, order, paths, head, k);
      paths' := paths;
    } else {
      TurnNew(g, b, order, paths, head, k, y, paths[head] + [k]);
      paths' := paths + [paths[head] + [k]];
    }
  }

  /** Queueing the new neighbours of the next commit carries the order on. */
  lemma {:induction false} TurnAll(g: Graph, b: Hash, order: seq<Hash>, paths: seq<Turns>, head: nat,
                                   next: seq<Hash>, k: nat)
    returns (paths': seq<Turns>)
    requires Mapped(g, b, order, paths, head) && InTime(paths, head, 0)
    requires head < |order| && next == Next(g, order[head]) && k <= |next|
    ensures Turning(g, b, Pushed(order, next[..k]), paths', head, k)
    decreases k
  {
    if k == 0 {
      paths' := paths;
      TurnsBegin(g, b, order, paths, head);
    } else {
      var o := Pushed(order, next[..k - 1]);
      var before := TurnAll(g, b, order, paths, head, next, k - 1);
      SameNext(g, order, next, k - 1, head);
      paths' := TurnOne(g, b, o, before, head, k - 1, next[k - 1]);
      PushedStep(order, next, k - 1);
    }
  }

  lemma TurnsBegin(g: Graph, b: Hash, order: seq<Hash>, paths: seq<Turns>, head: nat)
    requires Mapped(g, b, order, paths, head) && InTime(paths, head, 0) && head < |order|
    ensures Turning(g, b, Pushed(order, Next(g, order[head])[..0]), paths, head, 0)
  {}

  lemma SameNext(g: Graph, order: seq<Hash>, next: seq<Hash>, k: nat, head: nat)
    requires head < |order| && next == Next(g, order[head]) && k <= |next|
    ensures head < |Pushed(order, next[..k])| && Next(g, Pushed(order, next[..k])[head]) == next
  {}

  lemma StepListed(g: Graph, order: seq<Hash>, paths: seq<Turns>, i: nat, q: Turns, l: nat)
    requires |order| == |paths| && i < |order| && Turned(g, order, paths, i, |Next(g, order[i])|)
    requires l < |Next(g, order[i])| && NotAfter(paths[i], q)
    ensures ListedBy(order, paths, Next(g, order[i])[l], q + [l])
  {
    BeforeExtend(paths[i], q, l, l);
    var j :| 0 <= j < |order| && order[j] == Next(g, order[i])[l] && NotAfter(paths[j], paths[i] + [l]);
    BeforeTransitive(paths[j], paths[i] + [l], q + [l]);
  }

  lemma LengthsGrow(paths: seq<Turns>, i: nat, j: nat)
    requires Increasing(paths) && i <= j < |paths|
    ensures |paths[i]| <= |paths[j]|
  {
    assert i < j ==> Before(paths[i], paths[j]);
  }

  /** A path leads to a commit that is listed in time, or is longer than that of the next commit. */
  lemma {:induction false} PathListed(g: Graph, b: Hash, order: seq<Hash>, paths: seq<Turns>, head: nat,
                                      q: Turns, y: Hash)
    requires Mapped(g, b, order, paths, head) && Follow(g, b, q) == Some(y)
    ensures ListedBy(order, paths, y, q) || (head < |order| && |q| > |paths[head]|)
    decreases |q|
  {
    if q == [] {
      assert order[0] == y && NotAfter(paths[0], q);
    } else {
      var q', l := q[..|q| - 1], q[|q| - 1];
      var z := Follow(g, b, q').value;
      assert q == q' + [l];
      PathListed(g, b, order, paths, head, q', z);
      if ListedBy(order, paths, z, q') {
        var i :| 0 <= i < |order| && order[i] == z && NotAfter(paths[i], q');
        if i < head {
          StepListed(g, order, paths, i, q', l);
        } else {
          LengthsGrow(paths, head, i);
        }
      }
    }
  }

  /** What comes before the path of the next commit has been expanded. */
  lemma BeforeIsExpanded(g: Graph, b: Hash, order: seq<Hash>, paths: seq<Turns>, head: nat, q: Turns, y: Hash)
    requires Mapped(g, b, order, paths, head) && head < |order|
    requires Follow(g, b, q) == Some(y) && Before(q, paths[head])
    ensures exists j :: 0 <= j < head && order[j] == y
  {
    PathListed(g, b, order, paths, head, q, y);
    var j :| 0 <= j < |order| && order[j] == y && NotAfter(paths[j], q);
    BeforeTransitive(paths[j], q, paths[head]);
    BeforeIrreflexive(paths[j], paths[head]);
  }
}
