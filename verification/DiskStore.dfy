/** Commits, branches and HEAD: the state machine behind the store and the version statements of EpochQL. */
module DiskStores {
  import opened Bytes
  import opened Codec
  import opened HamtNode
  import opened MemCas
  import opened Lru
  import opened Commits
  import opened Walks
  import opened Dag

  /** What loading a commit from the records yields. */
  function Decoded(objects: Objects, h: Hash): Result<Commit> {
    var r :- Fetch(objects, h);
    if r.ty != CommitRecord then Err(Error.Codec) else DecodeCommit(r.payload)
  }

  function CommitGraph(objects: Objects): Graph {
    map h | h in objects && Decoded(objects, h).Ok? :: Decoded(objects, h).value.parents
  }

  /** Everything a store holds, its cache aside, with all records and commits ever handed to it. */
  datatype View = View(
    objects: Objects, branches: map<string, Hash>, head: Option<string>, written: set<Record>, commits: set<Commit>)

  function CommitRecordOf(c: Commit): Record {
    Record(CommitRecord, EncodeCommit(c))
  }

  ghost predicate Recorded(H: Hasher, v: View) {
    && (forall h :: h in v.objects ==> v.objects[h] in v.written && H(v.objects[h].payload) == h)
    && (forall c :: c in v.commits ==> CommitRecordOf(c) in v.written && H(EncodeCommit(c)) in v.objects)
  }

  /** The records handed to the store do not collide, and the commits fit their fields. */
  ghost predicate Honest(H: Hasher, v: View) {
    && (forall r, s :: r in v.written && s in v.written && H(r.payload) == H(s.payload) ==> r == s)
    && (forall c :: c in v.commits ==> Fits(c))
  }

  ghost predicate TipsStored(v: View) {
    forall n :: n in v.branches ==> v.branches[n] in v.objects
  }

  ghost predicate HeadNamed(v: View) {
    v.head.Some? && v.head.value in v.branches
  }

  /** Nothing stored is lost or changed. */
  ghost predicate Later(v: View, w: View) {
    Extends(v.objects, w.objects) && v.written <= w.written && v.commits <= w.commits
  }

  /** The old tip of every surviving branch is an ancestor of its new tip. */
  ghost predicate Forward(v: View, w: View) {
    forall n :: n in v.branches && n in w.branches ==>
      Reach(CommitGraph(w.objects), w.branches[n], v.branches[n])
  }

  /** Ranks of the stored objects by the time they were stored: parents come strictly before their commit. */
  ghost predicate Born(objects: Objects, born: map<Hash, nat>, clock: nat) {
    && born.Keys == objects.Keys
    && (forall h :: h in born ==> born[h] < clock)
    && Ranked(CommitGraph(objects), born)
  }

  ghost predicate Ranked(g: Graph, rank: map<Hash, nat>) {
    && (forall h :: h in g ==> h in rank)
    && (forall h, p :: h in g && p in g[h] ==> p in rank && rank[p] < rank[h])
  }

  ghost predicate SubGraph(a: Graph, b: Graph) {
    forall h :: h in a ==> h in b && b[h] == a[h]
  }

  // Laws of the stored graph.

  lemma {:induction false} RankDrops(g: Graph, rank: map<Hash, nat>, x: Hash, n: nat, y: Hash)
    requires Ranked(g, rank) && Walk(g, x, n, y) && n > 0
    ensures x in rank && y in rank && rank[y] + n <= rank[x]
    decreases n
  {
    var z :| Walk(g, x, n - 1, z) && y in Next(g, z);
    assert z in g && y in g[z];
    if n > 1 {
      RankDrops(g, rank, x, n - 1, z);
    } else {
      assert Walk(g, x, 0, z) && x == z;
    }
  }

  /** Parents stored before their commits leave no cycle. */
  lemma NoCycle(g: Graph, rank: map<Hash, nat>)
    requires Ranked(g, rank)
    ensures Acyclic(g)
  {
    forall x, n | Walk(g, x, n, x)
      ensures n == 0
    {
      if n > 0 {
        RankDrops(g, rank, x, n, x);
      }
    }
  }

  lemma {:induction false} WalkGrows(a: Graph, b: Graph, x: Hash, n: nat, y: Hash)
    requires SubGraph(a, b) && Walk(a, x, n, y)
    ensures Walk(b, x, n, y)
    decreases n
  {
    if n > 0 {
      var z :| Walk(a, x, n - 1, z) && y in Next(a, z);
      WalkGrows(a, b, x, n - 1, z);
      assert y in Next(b, z);
    }
  }

  lemma GraphGrows(a: Objects, b: Objects)
    requires Extends(a, b)
    ensures SubGraph(CommitGraph(a), CommitGraph(b))
  {
    assert forall h :: h in a ==> Decoded(a, h) == Decoded(b, h);
  }

  lemma ReachGrows(a: Objects, b: Objects, x: Hash, y: Hash)
    requires Extends(a, b) && Reach(CommitGraph(a), x, y)
    ensures Reach(CommitGraph(b), x, y)
  {
    var n :| Walk(CommitGraph(a), x, n, y);
    GraphGrows(a, b);
    WalkGrows(CommitGraph(a), CommitGraph(b), x, n, y);
  }

  lemma RankedOne(g: Graph, g': Graph, rank: map<Hash, nat>, h: Hash, r: nat)
    requires Ranked(g, rank) && h !in rank && forall k :: k in rank ==> rank[k] < r
    requires forall k :: k in g' && k != h ==> k in g && g'[k] == g[k]
    requires h in g' ==> forall p :: p in g'[h] ==> p in rank
    ensures Ranked(g', rank[h := r])
  {}

  lemma GraphPut(objects: Objects, h: Hash, r: Record)
    requires h !in objects
    ensures var g, g' := CommitGraph(objects), CommitGraph(objects[h := r]);
            && (forall k :: k in g' && k != h ==> k in g && g'[k] == g[k])
            && (h in g' ==> r.ty == CommitRecord && DecodeCommit(r.payload).Ok?
                            && g'[h] == DecodeCommit(r.payload).value.parents)
  {
    assert forall k :: k in objects ==> Decoded(objects, k) == Decoded(objects[h := r], k);
  }

  /** Storing keeps what is stored and the ranks, when a commit's parents are stored already. */
  lemma BornPut(H: Hasher, objects: Objects, r: Record, born: map<Hash, nat>, clock: nat)
    requires Born(objects, born, clock)
    requires r.ty == CommitRecord && DecodeCommit(r.payload).Ok? ==>
               forall p :: p in DecodeCommit(r.payload).value.parents ==> p in objects
    ensures Born(PutRecord(H, objects, r), Aged(born, clock, H(r.payload)), clock + 1)
  {
    var h := H(r.payload);
    if h !in objects {
      GraphPut(objects, h, r);
      RankedOne(CommitGraph(objects), CommitGraph(objects[h := r]), born, h, clock);
    }
  }

  // What a stored commit record says, whether or not the commit fitted its fields.

  lemma {:induction false} ReadHashesPrefix(hs: seq<Hash>, n: nat, rest: seq<byte>)
    requires n <= |hs|
    ensures ReadHashes(Concat(hs) + rest, n).Ok?
    ensures ReadHashes(Concat(hs) + rest, n).value.0 == hs[..n]
    decreases n
  {
    if n > 0 {
      var s := Concat(hs) + rest;
      assert s == hs[0] + (Concat(hs[1..]) + rest);
      assert s[..32] == hs[0] && s[32..] == Concat(hs[1..]) + rest;
      ReadHashesPrefix(hs[1..], n - 1, rest);
      assert hs[..n] == [hs[0]] + hs[1..][..n - 1];
    }
  }

  lemma TailKeepsParents(version: nat, parents: seq<Hash>, s: seq<byte>)
    ensures var d := DecodeTail(version, parents, s); d.Ok? ==> d.value.parents == parents
  {
  }

  lemma DecodedParents(c: Commit)
    ensures var d := DecodeCommit(EncodeCommit(c));
            d.Ok? ==> d.value.parents == c.parents[..|c.parents| % 0x100]
  {
    var rest := LE(|c.indexRoots|, 2) + EncodeRoots(c.indexRoots);
    var tail := c.root + (LE(c.timestamp, 8) + (LE(|c.message|, 2) + (c.message + rest)));
    var vb, cb := LE(2, 1), LE(|c.parents|, 1);
    Widths();
    FieldRoundTrip(2, 1);
    FromLEOfLE(|c.parents|, 1);
    var n := |c.parents| % 0x100;
    HeadFields(vb, cb, Concat(c.parents) + tail);
    assert EncodeCommit(c) == vb + (cb + (Concat(c.parents) + tail));
    ReadHashesPrefix(c.parents, n, tail);
    TailKeepsParents(2, c.parents[..n], ReadHashes(Concat(c.parents) + tail, n).value.1);
  }

  /** Of honest records, the address of a commit loads that commit. */
  lemma CommitReads(H: Hasher, v: View, c: Commit)
    requires Recorded(H, v) && Honest(H, v) && c in v.commits
    ensures Decoded(v.objects, H(EncodeCommit(c))) == Ok(c)
  {
    var r := CommitRecordOf(c);
    assert v.objects[H(r.payload)] == r;
    CommitRoundTrip(c);
  }

  lemma HonestBefore(H: Hasher, v: View, w: View)
    requires Later(v, w) && Honest(H, w)
    ensures Honest(H, v)
  {}

  lemma LaterTransitive(u: View, v: View, w: View)
    requires Later(u, v) && Later(v, w)
    ensures Later(u, w)
  {}

  /** Branches that stay put are carried forward. */
  lemma ForwardSame(v: View, w: View)
    requires forall n :: n in v.branches && n in w.branches ==> w.branches[n] == v.branches[n]
    ensures Forward(v, w)
  {
    forall n | n in v.branches && n in w.branches
      ensures Reach(CommitGraph(w.objects), w.branches[n], v.branches[n])
    {
      ReachSelf(CommitGraph(w.objects), v.branches[n]);
    }
  }

  lemma ForwardOne(v: View, w: View, name: string)
    requires forall n :: n in v.branches && n in w.branches && n != name ==> w.branches[n] == v.branches[n]
    requires name in v.branches && name in w.branches
    requires Reach(CommitGraph(w.objects), w.branches[name], v.branches[name])
    ensures Forward(v, w)
  {
    forall n | n in v.branches && n in w.branches
      ensures Reach(CommitGraph(w.objects), w.branches[n], v.branches[n])
    {
      if n != name {
        ReachSelf(CommitGraph(w.objects), v.branches[n]);
      }
    }
  }

  // What every operation keeps.

  ghost predicate Agrees(objects: Objects, cached: map<Hash, Commit>) {
    forall h :: h in cached ==> Decoded(objects, h) == Ok(cached[h])
  }

  ghost predicate Kept(H: Hasher, v: View, born: map<Hash, nat>, clock: nat, cached: map<Hash, Commit>) {
    && Recorded(H, v)
    && TipsStored(v)
    && Born(v.objects, born, clock)
    && cached.Keys <= v.objects.Keys
    && (Honest(H, v) ==> Agrees(v.objects, cached))
  }

  /** The state after a record has been handed to the store. */
  function WithRecord(H: Hasher, v: View, r: Record): View {
    v.(objects := PutRecord(H, v.objects, r), written := v.written + {r})
  }

  function WithCommit(H: Hasher, v: View, c: Commit): View {
    var w := WithRecord(H, v, CommitRecordOf(c));
    w.(commits := w.commits + {c})
  }

  function Aged(born: map<Hash, nat>, clock: nat, h: Hash): map<Hash, nat> {
    if h in born then born else born[h := clock]
  }

  /** At most one pair is new in a cache. */
  ghost predicate CachedOne(old': map<Hash, Commit>, new': map<Hash, Commit>, h: Hash, c: Commit) {
    forall k :: k in new' ==> if k == h then new'[k] == c else k in old' && new'[k] == old'[k]
  }

  lemma AgreesLater(a: Objects, b: Objects, cached: map<Hash, Commit>)
    requires Extends(a, b) && Agrees(a, cached)
    ensures Agrees(b, cached)
  {
    assert forall h :: h in a ==> Decoded(a, h) == Decoded(b, h);
  }

  lemma PutExtends(H: Hasher, v: View, r: Record)
    requires Recorded(H, v) && TipsStored(v)
    ensures Recorded(H, WithRecord(H, v, r)) && TipsStored(WithRecord(H, v, r)) && Later(v, WithRecord(H, v, r))
  {}

  /** A node of a trie handed to the store. */
  lemma NodeKept(H: Hasher, v: View, born: map<Hash, nat>, clock: nat, cached: map<Hash, Commit>, r: Record)
    requires Kept(H, v, born, clock, cached) && r.ty != CommitRecord
    ensures Later(v, WithRecord(H, v, r))
    ensures Kept(H, WithRecord(H, v, r), Aged(born, clock, H(r.payload)), clock + 1, cached)
  {
    PutExtends(H, v, r);
    BornPut(H, v.objects, r, born, clock);
    var w := WithRecord(H, v, r);
    if Honest(H, w) {
      HonestBefore(H, v, w);
      AgreesLater(v.objects, w.objects, cached);
    }
  }

  function WithRecords(H: Hasher, v: View, nodes: seq<Record>): View {
    if nodes == [] then v else WithRecord(H, WithRecords(H, v, nodes[..|nodes| - 1]), nodes[|nodes| - 1])
  }

  function AgedAll(H: Hasher, born: map<Hash, nat>, clock: nat, nodes: seq<Record>): map<Hash, nat> {
    if nodes == [] then born else
      var n := |nodes| - 1;
      Aged(AgedAll(H, born, clock, nodes[..n]), clock + n, H(nodes[n].payload))
  }

  lemma {:induction false} NodesKept(H: Hasher, v: View, w: View, born: map<Hash, nat>, born': map<Hash, nat>,
                                     clock: nat, cached: map<Hash, Commit>, nodes: seq<Record>)
    requires Kept(H, v, born, clock, cached) && forall i :: 0 <= i < |nodes| ==> nodes[i].ty != CommitRecord
    requires w == WithRecords(H, v, nodes) && born' == AgedAll(H, born, clock, nodes)
    ensures OnlyNodes(v, w) && Kept(H, w, born', clock + |nodes|, cached)
    decreases |nodes|
  {
    if nodes != [] {
      var n := |nodes| - 1;
      var u, b := WithRecords(H, v, nodes[..n]), AgedAll(H, born, clock, nodes[..n]);
      NodesKept(H, v, u, born, b, clock, cached, nodes[..n]);
      OneMoreNode(H, v, u, w, b, born', clock + n, clock + |nodes|, cached, nodes[n]);
    }
  }

  ghost predicate OnlyNodes(v: View, w: View) {
    Later(v, w) && w.branches == v.branches && w.head == v.head && w.commits == v.commits
  }

  lemma OneMoreNode(H: Hasher, v: View, u: View, w: View, born: map<Hash, nat>, born': map<Hash, nat>,
                    clock: nat, clock': nat, cached: map<Hash, Commit>, r: Record)
    requires OnlyNodes(v, u) && Kept(H, u, born, clock, cached) && r.ty != CommitRecord
    requires w == WithRecord(H, u, r) && born' == Aged(born, clock, H(r.payload)) && clock' == clock + 1
    ensures OnlyNodes(v, w) && Kept(H, w, born', clock', cached)
  {
    NodeKept(H, u, born, clock, cached, r);
    LaterTransitive(v, u, w);
  }

  /** A commit whose parents are stored, handed to the store and cached. */
  lemma CommitKept(H: Hasher, v: View, born: map<Hash, nat>, clock: nat,
                   cached: map<Hash, Commit>, cached': map<Hash, Commit>, c: Commit)
    requires Kept(H, v, born, clock, cached) && CachedOne(cached, cached', H(EncodeCommit(c)), c)
    requires forall p :: p in c.parents ==> p in v.objects
    ensures Later(v, WithCommit(H, v, c))
    ensures Kept(H, WithCommit(H, v, c), Aged(born, clock, H(EncodeCommit(c))), clock + 1, cached')
    ensures Honest(H, WithCommit(H, v, c)) ==>
              Decoded(WithCommit(H, v, c).objects, H(EncodeCommit(c))) == Ok(c)
  {
    var r, w := CommitRecordOf(c), WithCommit(H, v, c);
    PutExtends(H, v, r);
    CommitRecorded(H, v, c);
    DecodedParents(c);
    BornPut(H, v.objects, r, born, clock);
    if Honest(H, w) {
      HonestBefore(H, v, w);
      CommitReads(H, w, c);
      AgreesOne(v.objects, w.objects, cached, cached', H(EncodeCommit(c)), c);
    }
  }

  lemma CommitRecorded(H: Hasher, v: View, c: Commit)
    requires Recorded(H, v)
    ensures Recorded(H, WithCommit(H, v, c))
  {}

  lemma AgreesOne(a: Objects, b: Objects, cached: map<Hash, Commit>, cached': map<Hash, Commit>, h: Hash, c: Commit)
    requires Extends(a, b) && Agrees(a, cached) && CachedOne(cached, cached', h, c) && Decoded(b, h) == Ok(c)
    ensures Agrees(b, cached')
  {
    AgreesLater(a, b, cached);
  }

  /** Branches and HEAD may change as long as every tip is stored. */
  lemma KeptBranches(H: Hasher, v: View, branches: map<string, Hash>, head: Option<string>,
                     born: map<Hash, nat>, clock: nat, cached: map<Hash, Commit>)
    requires Kept(H, v, born, clock, cached)
    requires TipsStored(v.(branches := branches))
    ensures Kept(H, v.(branches := branches, head := head), born, clock, cached)
  {}

  lemma EmptyKept(H: Hasher)
    ensures Kept(H, View(map[], map[], None, {}, {}), map[], 0, map[])
  {}

  // The store.

  /** A reference in a statement. The hexadecimal text of a commit reference stands for the hashes it can mean. */
  datatype Target = Head | BranchRef(name: string) | CommitRef(means: Hash -> bool) | Tag(name: string)

  ghost predicate ResolvesTo(v: View, t: Target, h: Hash) {
    match t
    case Head => HeadNamed(v) && h == v.branches[v.head.value]
    case BranchRef(name) => name in v.branches && h == v.branches[name]
    case CommitRef(means) => h in v.objects && means(h) && forall k :: k in v.objects && means(k) ==> k == h
    case Tag(_) => false
  }

  /** The parents of a commit statement: the tip of HEAD unless they are given. */
  ghost predicate ParentsMeant(v: View, given: Option<seq<Target>>, parents: seq<Hash>) {
    match given
    case None => HeadNamed(v) && parents == [v.branches[v.head.value]]
    case Some(ts) => |parents| == |ts| && forall i :: 0 <= i < |ts| ==> ResolvesTo(v, ts[i], parents[i])
  }

  /** The branch that a merge moves. */
  ghost predicate Moved(v: View, w: View, into: Target, h: Hash) {
    match into
    case Head => HeadNamed(v) && w == v.(branches := v.branches[v.head.value := h])
    case BranchRef(name) => name in v.branches && w == v.(branches := v.branches[name := h])
    case CommitRef(_) => false
    case Tag(_) => false
  }

  /** The ancestor `i` is found from `s`: they are the same, or all of the history of `s` is stored and `i` is in it. */
  ghost predicate Descends(g: Graph, s: Hash, i: Hash) {
    (i == s || Complete(g, s)) && Reach(g, s, i)
  }

  /** A fast-forward can be made: the source descends from the target. */
  ghost predicate CanMerge(v: View, source: Target, into: Target, s: Hash, i: Hash) {
    && (into.Head? || into.BranchRef?)
    && ResolvesTo(v, source, s) && ResolvesTo(v, into, i)
    && Descends(CommitGraph(v.objects), s, i)
  }

  ghost predicate Resolvable(v: View, t: Target) {
    exists h :: ResolvesTo(v, t, h)
  }

  /** A commit statement has its parents, and the first of them loads. */
  ghost predicate CommitReady(v: View, given: Option<seq<Target>>) {
    HeadNamed(v) && exists hs :: hs != [] && ParentsMeant(v, given, hs) && Decoded(v.objects, hs[0]).Ok?
  }

  /** A branch or HEAD that exists, or the only object that a hash text means, if it is a commit. */
  ghost predicate CanCheckout(v: View, t: Target) {
    match t
    case Head => HeadNamed(v)
    case BranchRef(name) => name in v.branches
    case CommitRef(_) => exists h :: ResolvesTo(v, t, h) && Decoded(v.objects, h).Ok?
    case Tag(_) => false
  }

  lemma ParentsMeantOnce(v: View, given: Option<seq<Target>>, a: seq<Hash>, b: seq<Hash>)
    requires ParentsMeant(v, given, a) && ParentsMeant(v, given, b)
    ensures a == b
  {
    if given.Some? {
      forall i | 0 <= i < |a|
        ensures a[i] == b[i]
      {
        MeansOne(v, given.value[i]);
      }
    }
  }

  lemma FirstLoads(v: View, given: Option<seq<Target>>, hs: seq<Hash>)
    requires HeadNamed(v) && hs != [] && ParentsMeant(v, given, hs)
    ensures CommitReady(v, given) <==> Decoded(v.objects, hs[0]).Ok?
  {
    if CommitReady(v, given) {
      var other :| other != [] && ParentsMeant(v, given, other) && Decoded(v.objects, other[0]).Ok?;
      ParentsMeantOnce(v, given, hs, other);
    }
  }

  lemma ParentsStored(v: View, given: Option<seq<Target>>, parents: seq<Hash>)
    requires TipsStored(v) && ParentsMeant(v, given, parents)
    ensures forall p :: p in parents ==> p in v.objects
  {
    if given.Some? {
      forall i | 0 <= i < |parents|
        ensures parents[i] in v.objects
      {
        ResolvedStored(v, given.value[i], parents[i]);
      }
    }
  }

  lemma MeansOne(v: View, t: Target)
    ensures forall h, k :: ResolvesTo(v, t, h) && ResolvesTo(v, t, k) ==> h == k
  {}

  lemma ResolvedStored(v: View, t: Target, h: Hash)
    requires TipsStored(v) && ResolvesTo(v, t, h)
    ensures h in v.objects
  {}

  lemma OnlyOne<T>(s: set<T>, x: T)
    requires |s| == 1 && x in s
    ensures forall y :: y in s ==> y == x
  {
    assert |s - {x}| == 0;
  }

  lemma AmbiguousOrNone<T>(s: set<T>)
    requires |s| != 1
    ensures forall x :: x in s ==> exists y :: y in s && y != x
  {
    forall x | x in s
      ensures exists y :: y in s && y != x
    {
      assert |s - {x}| == |s| - 1;
      var y :| y in s - {x};
    }
  }

  const COMMIT_CACHE_CAP: nat := 4096

  /** The objects are those of the segmented store, which answers as this plain map. */
  class DiskStore {
    const H: Hasher
    var objects: Objects
    var cache: LruMap<Hash, Commit>
    var branches: map<string, Hash>
    var head: Option<string>
    ghost var born: map<Hash, nat>
    ghost var clock: nat
    ghost var written: set<Record>
    ghost var commits: set<Commit>

    ghost function See(): View
      reads this
    {
      View(objects, branches, head, written, commits)
    }

    ghost predicate Valid()
      reads this, cache
    {
      cache.Valid() && Kept(H, See(), born, clock, cache.entries)
    }

    /** A new repository: one commit without parents, one branch on it, and HEAD on that branch. */
    constructor (H: Hasher, branch: string, message: seq<byte>, timestamp: nat)
      ensures Valid() && fresh(cache)
      ensures this.H == H
      ensures branches == map[branch := H(EncodeCommit(Commit([], ZERO, timestamp, message, [])))]
      ensures head == Some(branch)
      ensures commits == {Commit([], ZERO, timestamp, message, [])}
    {
      var genesis := Commit([], ZERO, timestamp, message, []);
      var payload := EncodePayload(genesis);
      var h := H(payload);
      var lru := new LruMap(COMMIT_CACHE_CAP);
      ghost var empty := View(map[], map[], None, {}, {});
      EmptyKept(H);
      CommitKept(H, empty, map[], 0, map[], map[], genesis);
      KeptBranches(H, WithCommit(H, empty, genesis), map[branch := h], Some(branch), Aged(map[], 0, h), 1, map[]);
      this.H := H;
      objects := map[h := Record(CommitRecord, payload)];
      cache := lru;
      branches := map[branch := h];
      head := Some(branch);
      written, commits := {CommitRecordOf(genesis)}, {genesis};
      born, clock := Aged(map[], 0, h), 1;
    }

    method Remember(h: Hash, c: Commit)
      requires cache.Valid()
      modifies cache
      ensures cache.Valid() && CachedOne(old(cache.entries), cache.entries, h, c)
    {
      cache.Insert(h, c);
    }

    method LoadCommit(h: Hash) returns (r: Result<Commit>)
      requires Valid()
      modifies cache
      ensures Valid() && (r.Ok? ==> h in objects)
      ensures Honest(H, See()) ==> r == Decoded(objects, h)
    {
      if h in cache.entries {
        return Ok(cache.entries[h]);
      }
      var record :- Fetch(objects, h);
      if record.ty != CommitRecord {
        return Err(Error.Codec);
      }
      var commit :- DecodePayload(record.payload);
      Remember(h, commit);
      return Ok(commit);
    }

    method WriteCommit(c: Commit) returns (h: Hash)
      requires cache.Valid()
      modifies this, cache
      ensures cache.Valid() && cache == old(cache)
      ensures h == H(EncodeCommit(c)) && CachedOne(old(cache.entries), cache.entries, h, c)
      ensures See() == WithCommit(H, old(See()), c)
      ensures born == Aged(old(born), old(clock), h) && clock == old(clock) + 1
    {
      var payload := EncodePayload(c);
      h := H(payload);
      Remember(h, c);
      objects := PutRecord(H, objects, Record(CommitRecord, payload));
      written, commits := written + {CommitRecordOf(c)}, commits + {c};
      born, clock := Aged(born, clock, h), clock + 1;
    }

    method PersistCommit(c: Commit) returns (h: Hash)
      requires Valid()
      requires forall p :: p in c.parents ==> p in objects
      modifies this, cache
      ensures Valid() && cache == old(cache)
      ensures See() == WithCommit(H, old(See()), c) && Later(old(See()), See())
      ensures h == H(EncodeCommit(c))
      ensures Honest(H, See()) ==> Decoded(objects, h) == Ok(c)
    {
      h := WriteCommit(c);
      CommitKept(H, old(See()), old(born), old(clock), old(cache.entries), cache.entries, c);
    }

    method WriteNodes(nodes: seq<Record>)
      modifies this
      ensures cache == old(cache) && See() == WithRecords(H, old(See()), nodes)
      ensures born == AgedAll(H, old(born), old(clock), nodes) && clock == old(clock) + |nodes|
    {
      for k := 0 to |nodes|
        invariant cache == old(cache) && See() == WithRecords(H, old(See()), nodes[..k])
        invariant born == AgedAll(H, old(born), old(clock), nodes[..k]) && clock == old(clock) + k
      {
        assert nodes[..k + 1][..k] == nodes[..k];
        objects := PutRecord(H, objects, nodes[k]);
        written := written + {nodes[k]};
        born, clock := Aged(born, clock, H(nodes[k].payload)), clock + 1;
      }
      assert nodes[..|nodes|] == nodes;
    }

    /** The nodes written while tries are updated. */
    method PutNodes(nodes: seq<Record>)
      requires Valid() && forall i :: 0 <= i < |nodes| ==> nodes[i].ty != CommitRecord
      modifies this
      ensures Valid() && cache == old(cache) && Later(old(See()), See())
      ensures See() == WithRecords(H, old(See()), nodes)
      ensures branches == old(branches) && head == old(head) && commits == old(commits)
    {
      WriteNodes(nodes);
      NodesKept(H, old(See()), See(), old(born), born, old(clock), cache.entries, nodes);
    }

    method CommitWithIndexes(parents: seq<Hash>, root: Hash, indexRoots: Roots, timestamp: nat, message: seq<byte>)
      returns (r: Result<Hash>, ghost made: Commit)
      requires Valid()
      modifies this, cache
      ensures Valid() && cache == old(cache) && Later(old(See()), See())
      ensures made == Commit(parents, root, timestamp, message, indexRoots)
      ensures r.Ok? <==> forall p :: p in parents ==> p in old(objects)
      ensures r.Ok? ==> r.value == H(EncodeCommit(made)) && See() == WithCommit(H, old(See()), made)
      ensures r.Ok? && Honest(H, See()) ==> Decoded(objects, r.value) == Ok(made)
      ensures r.Err? ==> See() == old(See()) && r.error.InvalidCommit? && r.error.parent !in objects
    {
      made := Commit(parents, root, timestamp, message, indexRoots);
      for i := 0 to |parents|
        invariant forall k :: 0 <= k < i ==> parents[k] in objects
      {
        if parents[i] !in objects {
          return Err(InvalidCommit(parents[i])), made;
        }
      }
      var h := PersistCommit(Commit(parents, root, timestamp, message, indexRoots));
      return Ok(h), made;
    }

    method ReadBranch(name: string) returns (r: Result<Hash>)
      ensures r == if name in branches then Ok(branches[name]) else Err(BranchNotFound(name))
    {
      if name !in branches {
        return Err(BranchNotFound(name));
      }
      return Ok(branches[name]);
    }

    method MoveBranches(branches': map<string, Hash>, head': Option<string>)
      requires Valid() && TipsStored(See().(branches := branches'))
      modifies this
      ensures Valid() && cache == old(cache)
      ensures See() == old(See()).(branches := branches', head := head')
    {
      KeptBranches(H, See(), branches', head', born, clock, cache.entries);
      branches, head := branches', head';
    }

    method CreateBranch(name: string, target: Hash) returns (r: Result<()>)
      requires Valid()
      modifies this
      ensures Valid() && cache == old(cache)
      ensures r == if target !in old(objects) then Err(CommitNotFound(target))
                   else if name in old(branches) then Err(BranchExists(name)) else Ok(())
      ensures See() == if r.Ok? then old(See()).(branches := old(branches)[name := target]) else old(See())
    {
      if target !in objects {
        return Err(CommitNotFound(target));
      }
      if name in branches {
        return Err(BranchExists(name));
      }
      MoveBranches(branches[name := target], head);
      return Ok(());
    }

    method UpdateBranch(name: string, target: Hash) returns (r: Result<()>)
      requires Valid()
      modifies this
      ensures Valid() && cache == old(cache)
      ensures r == if target !in old(objects) then Err(CommitNotFound(target))
                   else if name !in old(branches) then Err(BranchNotFound(name)) else Ok(())
      ensures See() == if r.Ok? then old(See()).(branches := old(branches)[name := target]) else old(See())
    {
      if target !in objects {
        return Err(CommitNotFound(target));
      }
      if name !in branches {
        return Err(BranchNotFound(name));
      }
      MoveBranches(branches[name := target], head);
      return Ok(());
    }

    method DeleteBranch(name: string) returns (r: Result<()>)
      requires Valid()
      modifies this
      ensures Valid() && cache == old(cache)
      ensures r == if old(head) == Some(name) then Err(InvalidTarget)
                   else if name !in old(branches) then Err(BranchNotFound(name)) else Ok(())
      ensures See() == if r.Ok? then old(See()).(branches := old(branches) - {name}) else old(See())
    {
      if head == Some(name) {
        return Err(InvalidTarget);
      }
      if name !in branches {
        return Err(BranchNotFound(name));
      }
      MoveBranches(branches - {name}, head);
      return Ok(());
    }

    method SetHead(name: string) returns (r: Result<()>)
      requires Valid()
      modifies this
      ensures Valid() && cache == old(cache)
      ensures r == if name !in old(branches) then Err(BranchNotFound(name)) else Ok(())
      ensures See() == if r.Ok? then old(See()).(head := Some(name)) else old(See())
    {
      if name !in branches {
        return Err(BranchNotFound(name));
      }
      MoveBranches(branches, Some(name));
      return Ok(());
    }

    /** A store opened again, or one whose commit cache is given a new bound, starts with an empty cache. */
    method ForgetCache(limit: nat)
      requires Valid()
      modifies this
      ensures Valid() && fresh(cache) && See() == old(See())
    {
      cache := new LruMap(limit);
    }

    // Statements.

    method ReadHead() returns (r: Result<(string, Hash)>)
      ensures r.Ok? <==> HeadNamed(See())
      ensures r.Ok? ==> head == Some(r.value.0) && branches[r.value.0] == r.value.1
    {
      if head.None? {
        return Err(ExecError);
      }
      var tip :- ReadBranch(head.value);
      return Ok((head.value, tip));
    }

    method ResolveTarget(t: Target) returns (r: Result<Hash>)
      ensures r.Ok? ==> ResolvesTo(See(), t, r.value)
      ensures r.Err? ==> forall h :: !ResolvesTo(See(), t, h)
    {
      match t {
        case Head =>
          var current :- ReadHead();
          return Ok(current.1);
        case BranchRef(name) =>
          r := ReadBranch(name);
        case CommitRef(means) =>
          var found := set h | h in objects && means(h);
          assert forall k :: k in objects && means(k) ==> k in found;
          if |found| != 1 {
            AmbiguousOrNone(found);
            return Err(InvalidTarget);
          }
          var h :| h in found;
          OnlyOne(found, h);
          return Ok(h);
        case Tag(_) =>
          return Err(ExecError);
      }
    }

    method ResolveAll(ts: seq<Target>) returns (r: Result<seq<Hash>>)
      ensures r.Ok? ==> ParentsMeant(See(), Some(ts), r.value)
      ensures r.Err? ==> forall hs :: !ParentsMeant(See(), Some(ts), hs)
    {
      var out := [];
      for i := 0 to |ts|
        invariant |out| == i && forall k :: 0 <= k < i ==> ResolvesTo(See(), ts[k], out[k])
      {
        var h :- ResolveTarget(ts[i]);
        out := out + [h];
      }
      return Ok(out);
    }

    /**
     * COMMIT: `nodes` are the trie nodes written for the new document and its indexes, `roots` what came of it.
     */
    method ExecCommit(parents: Option<seq<Target>>, nodes: seq<Record>, roots: Result<(Hash, Roots)>,
                      timestamp: nat, message: seq<byte>)
      returns (r: Result<Hash>, ghost made: Commit)
      requires Valid() && (parents.Some? ==> parents.value != [])
      requires forall i :: 0 <= i < |nodes| ==> nodes[i].ty != CommitRecord
      modifies this, cache
      ensures Valid() && cache == old(cache) && Later(old(See()), See()) && head == old(head)
      ensures Honest(H, old(See())) ==> (r.Ok? <==> roots.Ok? && CommitReady(old(See()), parents))
      ensures r.Err? ==> branches == old(branches) && commits == old(commits)
      ensures r.Ok? ==> roots.Ok? && HeadNamed(old(See())) && branches == old(branches)[head.value := r.value]
      ensures r.Ok? ==> commits == old(commits) + {made} && r.value == H(EncodeCommit(made))
      ensures r.Ok? ==> made == Commit(made.parents, roots.value.0, timestamp, message, roots.value.1)
      ensures r.Ok? ==> ParentsMeant(old(See()), parents, made.parents)
      ensures r.Ok? && Honest(H, See()) ==> Decoded(objects, r.value) == Ok(made)
    {
      made := Commit([], ZERO, timestamp, message, []);
      var base :- CommitBase(parents);
      ParentsStored(See(), parents, base.1);
      PutNodes(nodes);
      var found :- roots;
      ghost var v := See();
      r, made := CommitOn(base.0, base.1, found.0, found.1, timestamp, message);
      LaterTransitive(old(See()), v, See());
    }

    /** The branch that will move and the parents of the new commit, the first of which must load. */
    method CommitBase(parents: Option<seq<Target>>) returns (r: Result<(string, seq<Hash>)>)
      requires Valid() && (parents.Some? ==> parents.value != [])
      modifies cache
      ensures Valid()
      ensures r.Ok? ==> HeadNamed(See()) && head == Some(r.value.0) && ParentsMeant(See(), parents, r.value.1)
      ensures Honest(H, See()) ==> (r.Ok? <==> CommitReady(See(), parents))
      ensures Honest(H, See()) && r.Ok? ==> r.value.1 != [] && Decoded(objects, r.value.1[0]).Ok?
    {
      var current :- ReadHead();
      var hs :- GivenOrTip(parents, current.1);
      var base := LoadCommit(hs[0]);
      FirstLoads(See(), parents, hs);
      if base.Err? {
        return Err(base.error);
      }
      return Ok((current.0, hs));
    }

    method GivenOrTip(parents: Option<seq<Target>>, tip: Hash) returns (r: Result<seq<Hash>>)
      requires parents.Some? ==> parents.value != []
      requires HeadNamed(See()) && tip == branches[head.value]
      ensures r.Ok? ==> r.value != [] && ParentsMeant(See(), parents, r.value)
      ensures r.Err? ==> forall hs :: !ParentsMeant(See(), parents, hs)
    {
      if parents.None? {
        return Ok([tip]);
      }
      r := ResolveAll(parents.value);
    }

    method CommitOn(name: string, parents: seq<Hash>, root: Hash, indexRoots: Roots, timestamp: nat, message: seq<byte>)
      returns (r: Result<Hash>, ghost made: Commit)
      requires Valid() && name in branches
      modifies this, cache
      ensures Valid() && cache == old(cache) && Later(old(See()), See()) && head == old(head)
      ensures made == Commit(parents, root, timestamp, message, indexRoots)
      ensures r.Ok? <==> forall p :: p in parents ==> p in old(objects)
      ensures r.Err? ==> branches == old(branches) && commits == old(commits)
      ensures r.Ok? ==> branches == old(branches)[name := r.value] && r.value == H(EncodeCommit(made))
      ensures r.Ok? ==> commits == old(commits) + {made}
      ensures r.Ok? && Honest(H, See()) ==> Decoded(objects, r.value) == Ok(made)
    {
      r, made := CommitWithIndexes(parents, root, indexRoots, timestamp, message);
      if r.Err? {
        return;
      }
      var moved :- UpdateBranch(name, r.value);
    }

    method ExecBranch(name: string, from: Option<Target>) returns (r: Result<Hash>)
      requires Valid()
      modifies this
      ensures Valid() && cache == old(cache)
      ensures r.Ok? <==> name !in old(branches) && Resolvable(old(See()), if from.Some? then from.value else Head)
      ensures r.Ok? ==> ResolvesTo(old(See()), if from.Some? then from.value else Head, r.value)
      ensures r.Ok? ==> See() == old(See()).(branches := old(branches)[name := r.value])
      ensures r.Err? ==> See() == old(See())
    {
      var source := if from.Some? then from.value else Head;
      var target :- ResolveTarget(source);
      ResolvedStored(See(), source, target);
      var done :- CreateBranch(name, target);
      return Ok(target);
    }

    method ExecCheckout(t: Target) returns (r: Result<Hash>)
      requires Valid()
      modifies this, cache
      ensures Valid() && cache == old(cache)
      ensures Honest(H, old(See())) || !t.CommitRef? ==> (r.Ok? <==> CanCheckout(old(See()), t))
      ensures r.Ok? ==> ResolvesTo(See(), t, r.value)
      ensures See() == if r.Ok? && t.BranchRef? then old(See()).(head := Some(t.name)) else old(See())
    {
      match t {
        case BranchRef(name) =>
          var done :- SetHead(name);
          r := ReadBranch(name);
        case Head =>
          var current :- ReadHead();
          return Ok(current.1);
        case CommitRef(_) =>
          r := CheckoutCommit(t);
        case Tag(_) =>
          return Err(ExecError);
      }
    }

    method CheckoutCommit(t: Target) returns (r: Result<Hash>)
      requires Valid() && t.CommitRef?
      modifies cache
      ensures Valid()
      ensures Honest(H, See()) ==> (r.Ok? <==> CanCheckout(See(), t))
      ensures r.Ok? ==> ResolvesTo(See(), t, r.value)
    {
      var h :- ResolveTarget(t);
      MeansOne(See(), t);
      var commit :- LoadCommit(h);
      return Ok(h);
    }

    /** MERGE: only a branch or HEAD can be merged into, and only by moving it forward. */
    method ExecMerge(source: Target, into: Target, fastForward: bool) returns (r: Result<Hash>)
      requires Valid()
      modifies this, cache
      ensures Valid() && cache == old(cache)
      ensures r.Err? ==> See() == old(See())
      ensures r.Ok? ==> fastForward && ResolvesTo(old(See()), source, r.value) && Moved(old(See()), See(), into, r.value)
      ensures r.Ok? && Honest(H, old(See())) ==> Forward(old(See()), See())
      ensures Honest(H, old(See())) ==>
                (r.Ok? <==> fastForward && exists s, i :: CanMerge(old(See()), source, into, s, i))
    {
      var s :- ResolveTarget(source);
      var i :- ResolveTarget(into);
      MeansOne(See(), source);
      MeansOne(See(), into);
      var name :- MergedBranch(into);
      if !fastForward {
        return Err(ExecError);
      }
      ResolvedStored(See(), source, s);
      ghost var v := See();
      r := FastForward(name, i, s);
      assert r.Ok? && Honest(H, v) ==> CanMerge(v, source, into, s, i);
    }

    method MergedBranch(into: Target) returns (r: Result<string>)
      ensures r.Ok? ==> match into
                        case Head => HeadNamed(See()) && head == Some(r.value)
                        case BranchRef(name) => r.value == name
                        case CommitRef(_) => false
                        case Tag(_) => false
      ensures into.BranchRef? || (into.Head? && HeadNamed(See())) ==> r.Ok?
    {
      match into {
        case BranchRef(name) =>
          return Ok(name);
        case Head =>
          var current :- ReadHead();
          return Ok(current.0);
        case CommitRef(_) =>
          return Err(ExecError);
        case Tag(_) =>
          return Err(ExecError);
      }
    }

    /** The search for ancestors, loading commits through the cache. */
    method CollectLoaded(start: Hash) returns (r: Result<set<Hash>>)
      requires Valid()
      modifies cache
      ensures Valid()
      ensures Honest(H, See()) ==> (r.Ok? <==> Complete(CommitGraph(objects), start))
      ensures Honest(H, See()) && r.Ok? ==> forall y :: y in r.value <==> Reach(CommitGraph(objects), start, y)
    {
      ghost var g := CommitGraph(objects);
      var ancestors: set<Hash> := {};
      var queue := [start];
      GatherBegins(g, start);
      while queue != []
        invariant Valid() && ancestors <= objects.Keys
        invariant Honest(H, See()) ==> Gathering(g, start, ancestors, queue)
        decreases objects.Keys - ancestors, |queue|
      {
        var current := queue[0];
        if Honest(H, See()) {
          GatherOne(g, start, ancestors, queue);
        }
        queue := queue[1..];
        if current in ancestors {
          continue;
        }
        var commit :- LoadCommit(current);
        ancestors := ancestors + {current};
        queue := queue + commit.parents;
      }
      if Honest(H, See()) {
        GatherEnds(g, start, ancestors);
      }
      return Ok(ancestors);
    }

    method IsAncestorLoaded(ancestor: Hash, descendant: Hash) returns (r: Result<bool>)
      requires Valid()
      modifies cache
      ensures Valid()
      ensures Honest(H, See()) ==> (r == Ok(true) <==> Descends(CommitGraph(objects), descendant, ancestor))
    {
      if ancestor == descendant {
        ReachSelf(CommitGraph(objects), descendant);
        return Ok(true);
      }
      var ancestors :- CollectLoaded(descendant);
      return Ok(ancestor in ancestors);
    }

    method FastForward(name: string, i: Hash, s: Hash) returns (r: Result<Hash>)
      requires Valid() && s in objects && name in branches && branches[name] == i
      modifies this, cache
      ensures Valid() && cache == old(cache)
      ensures Honest(H, old(See())) ==> (r.Ok? <==> Descends(CommitGraph(old(objects)), s, i))
      ensures r.Err? ==> See() == old(See())
      ensures r.Ok? ==> r.value == s && See() == old(See()).(branches := old(branches)[name := s])
      ensures r.Ok? && Honest(H, old(See())) ==> Forward(old(See()), See())
    {
      var below :- IsAncestorLoaded(i, s);
      if !below {
        return Err(ExecError);
      }
      ghost var v := See();
      var moved :- UpdateBranch(name, s);
      if Honest(H, v) {
        ForwardOne(v, See(), name);
      }
      return Ok(s);
    }
  }
}
