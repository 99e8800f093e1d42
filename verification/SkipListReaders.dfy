/** One writer's individual pointer stores interleaved with any number of level-0 traversals. */
module SkipListReaders {
  import opened SkipLists
  import opened Wrappers

  type Id = nat
  const HEADER: Id := 0

  datatype Level0<!K> = Level0(
    key: map<Id, K>,              // every data node allocated so far
    next: map<Id, Option<Id>>,    // level-0 pointers, the header's included
    live: seq<Id>)                // the nodes that level 0 links, in order

  /** Where the writer stands inside put or erase_range; the searches before the stores only read. */
  datatype Writer =
    | Idle
    | PutAllocated(node: Id, p: nat)  // node filled in, its next[0] not stored yet
    | PutPrepared(node: Id, p: nat)   // next[0] of the node stored, not published
    | EraseReady(p: nat, r: nat)      // the doomed nodes are those at positions p to r of level 0
    | UpperLevels                     // level 0 done; stores into higher levels remain

  datatype Cursor = At(id: Id) | Done

  /** visited is the traversal's own log; seen and kept record the list contents since its start. */
  datatype Reader = Reader(cursor: Cursor, visited: seq<Id>, seen: set<Id>, kept: set<Id>)

  datatype State<!K> = State(
    list: Level0<K>,
    upper: map<(Id, nat), Option<Id>>,  // pointers of the levels above
    writer: Writer,
    readers: map<nat, Reader>)

  function Before(live: seq<Id>, p: nat): Id
    requires p <= |live|
  {
    if p == 0 then HEADER else live[p - 1]
  }

  function ItemAt(live: seq<Id>, p: nat): Option<Id> {
    if p < |live| then Some(live[p]) else None
  }

  ghost function Members(live: seq<Id>): set<Id> {
    set n | n in live
  }

  // ---------- steps ----------

  ghost predicate Init<K>(s: State<K>) {
    s == State(Level0(map[], map[HEADER := None], []), map[], Idle, map[])
  }

  function Allocate<K>(l: Level0<K>, k: K, node: Id): Level0<K> {
    l.(key := l.key[node := k], next := l.next[node := None])
  }

  /** put found no node with key k: p is the number of smaller keys, and a node is filled in privately. */
  ghost predicate BeginPut<K>(lt: (K, K) -> bool, s: State<K>, s': State<K>, k: K, node: Id, p: nat) {
    var l := s.list;
    && s.writer.Idle? && node != HEADER && node !in l.key && p <= |l.live|
    && (forall j | 0 <= j < p :: l.live[j] in l.key && lt(l.key[l.live[j]], k))
    && (forall j | p <= j < |l.live| :: l.live[j] in l.key && lt(k, l.key[l.live[j]]))
    && s' == s.(list := Allocate(l, k, node), writer := PutAllocated(node, p))
  }

  function Prepare<K>(l: Level0<K>, node: Id, p: nat): Level0<K>
    requires p <= |l.live| && Before(l.live, p) in l.next
  {
    l.(next := l.next[node := l.next[Before(l.live, p)]])
  }

  /** The first store of a round: the new node's own pointer, still unreachable. */
  ghost predicate PrepareNode<K>(s: State<K>, s': State<K>) {
    && s.writer.PutAllocated? && s.writer.p <= |s.list.live| && Before(s.list.live, s.writer.p) in s.list.next
    && s' == s.(list := Prepare(s.list, s.writer.node, s.writer.p), writer := PutPrepared(s.writer.node, s.writer.p))
  }

  function Observe(r: Reader, live: set<Id>): Reader {
    r.(seen := r.seen + live, kept := r.kept * live)
  }

  ghost function ObserveAll(rs: map<nat, Reader>, live: seq<Id>): map<nat, Reader> {
    map t | t in rs :: Observe(rs[t], Members(live))
  }

  function Publish<K>(l: Level0<K>, node: Id, p: nat): Level0<K>
    requires p <= |l.live|
  {
    l.(next := l.next[Before(l.live, p) := Some(node)], live := l.live[..p] + [node] + l.live[p..])
  }

  /** The second store of the round: the predecessor's pointer. */
  ghost predicate PublishNode<K>(s: State<K>, s': State<K>) {
    && s.writer.PutPrepared? && s.writer.p <= |s.list.live|
    && var l' := Publish(s.list, s.writer.node, s.writer.p);
       s' == s.(list := l', writer := UpperLevels, readers := ObserveAll(s.readers, l'.live))
  }

  ghost predicate BeginErase<K>(s: State<K>, s': State<K>, p: nat, r: nat) {
    && s.writer.Idle? && p <= r <= |s.list.live|
    && s' == s.(writer := EraseReady(p, r))
  }

  function Bypass<K>(l: Level0<K>, p: nat, r: nat): Level0<K>
    requires p <= r <= |l.live|
  {
    l.(next := l.next[Before(l.live, p) := ItemAt(l.live, r)], live := l.live[..p] + l.live[r..])
  }

  /** The level-0 store of erase_range; the doomed nodes keep their pointers. */
  ghost predicate BypassDoomed<K>(s: State<K>, s': State<K>) {
    && s.writer.EraseReady? && s.writer.p <= s.writer.r <= |s.list.live|
    && var l' := Bypass(s.list, s.writer.p, s.writer.r);
       s' == s.(list := l', writer := UpperLevels, readers := ObserveAll(s.readers, l'.live))
  }

  ghost predicate UpperStore<K>(s: State<K>, s': State<K>, n: Id, level: nat, target: Option<Id>) {
    && s.writer.UpperLevels? && level > 0
    && s' == s.(upper := s.upper[(n, level) := target])
  }

  ghost predicate FinishWrite<K>(s: State<K>, s': State<K>) {
    s.writer.UpperLevels? && s' == s.(writer := Idle)
  }

  function Landing(r: Reader, target: Option<Id>): Reader {
    match target
    case None => r.(cursor := Done)
    case Some(n) => r.(cursor := At(n), visited := r.visited + [n])
  }

  ghost function Started<K>(l: Level0<K>): Reader {
    Reader(Done, [], Members(l.live), Members(l.live))
  }

  /** A traversal starts by loading the header's level-0 pointer. */
  ghost predicate StartRead<K>(s: State<K>, s': State<K>, t: nat) {
    && t !in s.readers && HEADER in s.list.next
    && s' == s.(readers := s.readers[t := Landing(Started(s.list), s.list.next[HEADER])])
  }

  ghost predicate AdvanceRead<K>(s: State<K>, s': State<K>, t: nat) {
    && t in s.readers && s.readers[t].cursor.At? && s.readers[t].cursor.id in s.list.next
    && s' == s.(readers := s.readers[t := Landing(s.readers[t], s.list.next[s.readers[t].cursor.id])])
  }

  ghost predicate Step<K(!new)>(lt: (K, K) -> bool, s: State<K>, s': State<K>) {
    || (exists k, node, p :: BeginPut(lt, s, s', k, node, p))
    || PrepareNode(s, s')
    || PublishNode(s, s')
    || (exists p, r :: BeginErase(s, s', p, r))
    || BypassDoomed(s, s')
    || (exists n, level, target :: UpperStore(s, s', n, level, target))
    || FinishWrite(s, s')
    || (exists t :: StartRead(s, s', t))
    || (exists t :: AdvanceRead(s, s', t))
  }

  // ---------- the invariant ----------

  /** m lies after n in key order; everything lies after the header. */
  ghost predicate After<K>(lt: (K, K) -> bool, key: map<Id, K>, n: Id, m: Id) {
    m in key && (n == HEADER || (n in key && lt(key[n], key[m])))
  }

  /** The list is strictly sorted, and every pointer, also of an unlinked node, points forwards. */
  ghost predicate Forward<K>(lt: (K, K) -> bool, l: Level0<K>) {
    && HEADER !in l.key && l.next.Keys == l.key.Keys + {HEADER}
    && (forall n | n in l.live :: n in l.key)
    && (forall i, j | 0 <= i < j < |l.live| :: l.live[i] != l.live[j] && After(lt, l.key, l.live[i], l.live[j]))
    && (forall n | n in l.next && l.next[n].Some? :: After(lt, l.key, n, l.next[n].value))
  }

  /** Level 0 links exactly the live nodes. */
  ghost predicate Linked<K>(l: Level0<K>) {
    forall p | 0 <= p <= |l.live| :: Before(l.live, p) in l.next && l.next[Before(l.live, p)] == ItemAt(l.live, p)
  }

  ghost predicate ListOk<K>(lt: (K, K) -> bool, l: Level0<K>) {
    Forward(lt, l) && Linked(l)
  }

  /** The private node belongs at position p. */
  ghost predicate NodeFits<K>(lt: (K, K) -> bool, l: Level0<K>, node: Id, p: nat) {
    && node in l.key && node in l.next && node !in l.live && p <= |l.live|
    && (forall j | 0 <= j < p :: After(lt, l.key, l.live[j], node))
    && (forall j | p <= j < |l.live| :: After(lt, l.key, node, l.live[j]))
  }

  ghost predicate WriterOk<K>(lt: (K, K) -> bool, l: Level0<K>, w: Writer) {
    match w
    case PutAllocated(node, p) => NodeFits(lt, l, node, p)
    case PutPrepared(node, p) => NodeFits(lt, l, node, p) && l.next[node] == ItemAt(l.live, p)
    case EraseReady(p, r) => p <= r <= |l.live|
    case _ => true
  }

  /** No reader has met the node that is still private to the writer. */
  ghost predicate Unseen(w: Writer, r: Reader) {
    w.PutAllocated? || w.PutPrepared? ==> w.node !in r.seen
  }

  /** No node that the reader may stand on, and not the header, jumps over a node kept so far. */
  ghost predicate NoJump<K>(lt: (K, K) -> bool, l: Level0<K>, r: Reader) {
    forall n, m | (n == HEADER || n in r.seen) && m in r.kept && After(lt, l.key, n, m) ::
      n in l.next && l.next[n].Some? && l.next[n].value in l.key && !lt(l.key[m], l.key[l.next[n].value])
  }

  ghost predicate Closed<K>(l: Level0<K>, r: Reader) {
    forall n | n in r.seen && n in l.next && l.next[n].Some? :: l.next[n].value in r.seen
  }

  ghost predicate SameKeySameNode<K>(l: Level0<K>, r: Reader) {
    forall n, m | n in r.seen && m in r.kept && n in l.key && m in l.key && l.key[n] == l.key[m] :: n == m
  }

  /** The pointers around everything the reader may meet. */
  ghost predicate ViewOk<K>(lt: (K, K) -> bool, l: Level0<K>, r: Reader) {
    && Members(l.live) <= r.seen && r.seen <= l.key.Keys && r.kept <= Members(l.live)
    && Closed(l, r) && NoJump(lt, l, r) && SameKeySameNode(l, r)
  }

  /** The log: increasing, inside seen, ending at the cursor, and complete up to it. */
  ghost predicate LogOk<K>(lt: (K, K) -> bool, key: map<Id, K>, r: Reader) {
    && (forall n | n in r.visited :: n in r.seen)
    && (forall i, j | 0 <= i < j < |r.visited| :: After(lt, key, r.visited[i], r.visited[j]))
    && (r.cursor.At? ==> |r.visited| > 0 && r.visited[|r.visited| - 1] == r.cursor.id)
    && (forall m | m in r.kept && (r.cursor.Done? || !After(lt, key, r.cursor.id, m)) :: m in r.visited)
  }

  ghost predicate ReaderOk<K>(lt: (K, K) -> bool, l: Level0<K>, w: Writer, r: Reader) {
    ViewOk(lt, l, r) && LogOk(lt, l.key, r) && Unseen(w, r)
  }

  ghost predicate Inv<K>(lt: (K, K) -> bool, s: State<K>) {
    && ListOk(lt, s.list) && WriterOk(lt, s.list, s.writer)
    && forall t | t in s.readers :: ReaderOk(lt, s.list, s.writer, s.readers[t])
  }

  // ---------- facts about sorted linked lists ----------

  lemma Asymmetric<K(!new)>(lt: (K, K) -> bool, a: K, b: K)
    requires StrictTotalOrder(lt) && lt(a, b)
    ensures !lt(b, a) && a != b
  {
    assert Trichotomy(lt, a, a) && Transitive(lt, a, b, a);
  }

  /** In a well-linked list no pointer jumps over a live node. */
  lemma ListJump<K(!new)>(lt: (K, K) -> bool, l: Level0<K>, p: nat, m: Id)
    requires StrictTotalOrder(lt) && Forward(lt, l) && p <= |l.live|
    requires m in l.live && After(lt, l.key, Before(l.live, p), m)
    ensures p < |l.live| && !lt(l.key[m], l.key[l.live[p]])
  {
    var j :| 0 <= j < |l.live| && l.live[j] == m;
    if j < p {
      assert After(lt, l.key, l.live[j], l.live[p - 1]) || j == p - 1;
      Asymmetric(lt, l.key[l.live[p - 1]], l.key[m]);
    } else if j == p {
      assert Trichotomy(lt, l.key[m], l.key[m]);
    } else {
      Asymmetric(lt, l.key[l.live[p]], l.key[m]);
    }
  }

  lemma LiveKeysDiffer<K(!new)>(lt: (K, K) -> bool, l: Level0<K>, n: Id, m: Id)
    requires StrictTotalOrder(lt) && Forward(lt, l) && n in l.live && m in l.live && l.key[n] == l.key[m]
    ensures n == m
  {
    var i :| 0 <= i < |l.live| && l.live[i] == n;
    var j :| 0 <= j < |l.live| && l.live[j] == m;
    assert Trichotomy(lt, l.key[n], l.key[m]);
    assert i < j ==> After(lt, l.key, n, m);
    assert j < i ==> After(lt, l.key, m, n);
  }

  lemma Position<K>(l: Level0<K>, n: Id) returns (q: nat)
    requires Linked(l) && (n == HEADER || n in l.live)
    ensures q <= |l.live| && Before(l.live, q) == n && n in l.next && l.next[n] == ItemAt(l.live, q)
  {
    if n == HEADER {
      q := 0;
    } else {
      var j :| 0 <= j < |l.live| && l.live[j] == n;
      q := j + 1;
    }
    assert Before(l.live, q) == n;
  }

  // ---------- writer steps keep the list ----------

  lemma AllocateKeepsList<K(!new)>(lt: (K, K) -> bool, l: Level0<K>, k: K, node: Id)
    requires ListOk(lt, l) && node != HEADER && node !in l.key
    ensures ListOk(lt, Allocate(l, k, node))
  {
    var l' := Allocate(l, k, node);
    assert forall n, m | n != node && m != node :: After(lt, l.key, n, m) <==> After(lt, l'.key, n, m);
    forall p | 0 <= p <= |l'.live| ensures l'.next[Before(l'.live, p)] == ItemAt(l'.live, p) {
      assert l.next[Before(l.live, p)] == ItemAt(l.live, p);
    }
  }

  lemma PrepareKeepsList<K>(lt: (K, K) -> bool, l: Level0<K>, node: Id, p: nat)
    requires ListOk(lt, l) && NodeFits(lt, l, node, p)
    ensures Before(l.live, p) in l.next
    ensures ListOk(lt, Prepare(l, node, p)) && NodeFits(lt, Prepare(l, node, p), node, p)
    ensures Prepare(l, node, p).next[node] == ItemAt(l.live, p)
  {
    assert l.next[Before(l.live, p)] == ItemAt(l.live, p);
    var l' := Prepare(l, node, p);
    forall q | 0 <= q <= |l'.live| ensures l'.next[Before(l'.live, q)] == ItemAt(l'.live, q) {
      assert l.next[Before(l.live, q)] == ItemAt(l.live, q);
    }
  }

  lemma PublishLinks<K>(lt: (K, K) -> bool, l: Level0<K>, node: Id, p: nat)
    requires ListOk(lt, l) && NodeFits(lt, l, node, p) && l.next[node] == ItemAt(l.live, p)
    ensures Linked(Publish(l, node, p))
  {
    var l' := Publish(l, node, p);
    forall q | 0 <= q <= |l'.live|
      ensures Before(l'.live, q) in l'.next && l'.next[Before(l'.live, q)] == ItemAt(l'.live, q)
    {
      if q < p {
        assert Before(l'.live, q) == Before(l.live, q) && l.next[Before(l.live, q)] == ItemAt(l.live, q);
      } else if q > p + 1 {
        assert Before(l'.live, q) == Before(l.live, q - 1) && l.next[Before(l.live, q - 1)] == ItemAt(l.live, q - 1);
      } else {
        assert Before(l.live, p) in l.next;
      }
    }
  }

  lemma PublishForward<K>(lt: (K, K) -> bool, l: Level0<K>, node: Id, p: nat)
    requires ListOk(lt, l) && NodeFits(lt, l, node, p)
    ensures Forward(lt, Publish(l, node, p))
  {
    var l' := Publish(l, node, p);
    assert Before(l.live, p) in l.next;
    assert forall i | 0 <= i < |l'.live| :: l'.live[i] == if i < p then l.live[i] else if i == p then node else l.live[i - 1];
  }

  lemma BypassLinks<K>(lt: (K, K) -> bool, l: Level0<K>, p: nat, r: nat)
    requires ListOk(lt, l) && p <= r <= |l.live|
    ensures Linked(Bypass(l, p, r))
  {
    var l' := Bypass(l, p, r);
    forall q | 0 <= q <= |l'.live|
      ensures Before(l'.live, q) in l'.next && l'.next[Before(l'.live, q)] == ItemAt(l'.live, q)
    {
      var t := if q <= p then q else q + (r - p);
      assert Before(l'.live, q) == Before(l.live, t) && l.next[Before(l.live, t)] == ItemAt(l.live, t);
    }
  }

  lemma BypassForward<K>(lt: (K, K) -> bool, l: Level0<K>, p: nat, r: nat)
    requires ListOk(lt, l) && p <= r <= |l.live|
    ensures Forward(lt, Bypass(l, p, r))
  {
    var l' := Bypass(l, p, r);
    assert Before(l.live, p) in l.next;
    assert forall i | 0 <= i < |l'.live| :: l'.live[i] == l.live[if i < p then i else i + (r - p)];
  }

  // ---------- writer steps keep the readers ----------

  /** Steps that leave the list and the pointers a reader can follow alone do not disturb it. */
  lemma ViewUnaffected<K>(lt: (K, K) -> bool, l: Level0<K>, l': Level0<K>, r: Reader)
    requires ListOk(lt, l) && ViewOk(lt, l, r) && LogOk(lt, l.key, r) && l'.live == l.live
    requires forall n | n in l.key :: n in l'.key && l'.key[n] == l.key[n]
    requires forall n | n == HEADER || n in r.seen :: n in l'.next && l'.next[n] == l.next[n]
    ensures ViewOk(lt, l', r) && LogOk(lt, l'.key, r)
  {
    assert forall n, m | (n == HEADER || n in l.key) && m in l.key :: After(lt, l'.key, n, m) <==> After(lt, l.key, n, m);
  }

  /** A store into one linked predecessor u: what the reader may follow still closes and never jumps. */
  lemma ViewAfterStore<K(!new)>(lt: (K, K) -> bool, l: Level0<K>, l': Level0<K>, r: Reader, u: Id)
    requires StrictTotalOrder(lt) && ListOk(lt, l') && ViewOk(lt, l, r)
    requires l'.key == l.key && (u == HEADER || u in l'.live)
    requires forall n | n in l.next && n != u :: n in l'.next && l'.next[n] == l.next[n]
    requires l.next.Keys == l'.next.Keys
    ensures ViewOk(lt, l', Observe(r, Members(l'.live)))
  {
    var r' := Observe(r, Members(l'.live));
    ClosedAfterStore(lt, l, l', r, u);
    forall n, m | (n == HEADER || n in r'.seen) && m in r'.kept && After(lt, l'.key, n, m)
      ensures n in l'.next && l'.next[n].Some? && l'.next[n].value in l'.key && !lt(l'.key[m], l'.key[l'.next[n].value])
    {
      if n == HEADER || n in l'.live {
        var q := Position(l', n);
        ListJump(lt, l', q, m);
      }
    }
    forall n, m | n in r'.seen && m in r'.kept && n in l'.key && m in l'.key && l'.key[n] == l'.key[m] ensures n == m {
      if n in l'.live { LiveKeysDiffer(lt, l', n, m); }
    }
  }

  lemma ClosedAfterStore<K>(lt: (K, K) -> bool, l: Level0<K>, l': Level0<K>, r: Reader, u: Id)
    requires ListOk(lt, l') && ViewOk(lt, l, r)
    requires l'.key == l.key && (u == HEADER || u in l'.live)
    requires forall n | n in l.next && n != u :: n in l'.next && l'.next[n] == l.next[n]
    requires l.next.Keys == l'.next.Keys
    ensures Closed(l', Observe(r, Members(l'.live)))
  {
    var r' := Observe(r, Members(l'.live));
    forall n | n in r'.seen && n in l'.next && l'.next[n].Some? ensures l'.next[n].value in r'.seen {
      if n in l'.live {
        var q := Position(l', n);
      }
    }
  }

  /** The combined effect of a store that changes the list on every reader. */
  lemma StoreKeepsReaders<K(!new)>(lt: (K, K) -> bool, s: State<K>, l': Level0<K>, u: Id)
    requires StrictTotalOrder(lt) && Inv(lt, s) && ListOk(lt, l')
    requires l'.key == s.list.key && (u == HEADER || u in l'.live)
    requires forall n | n in s.list.next && n != u :: n in l'.next && l'.next[n] == s.list.next[n]
    requires s.list.next.Keys == l'.next.Keys
    ensures Inv(lt, s.(list := l', writer := UpperLevels, readers := ObserveAll(s.readers, l'.live)))
  {
    forall t | t in s.readers ensures ReaderOk(lt, l', UpperLevels, Observe(s.readers[t], Members(l'.live))) {
      assert ReaderOk(lt, s.list, s.writer, s.readers[t]);
      ViewAfterStore(lt, s.list, l', s.readers[t], u);
    }
  }

  // ---------- every step keeps the invariant ----------

  lemma BeginPutKeepsInv<K(!new)>(lt: (K, K) -> bool, s: State<K>, s': State<K>, k: K, node: Id, p: nat)
    requires Inv(lt, s) && BeginPut(lt, s, s', k, node, p)
    ensures Inv(lt, s')
  {
    AllocateKeepsList(lt, s.list, k, node);
    forall t | t in s'.readers ensures ReaderOk(lt, s'.list, s'.writer, s'.readers[t]) {
      assert ReaderOk(lt, s.list, s.writer, s.readers[t]);
      ViewUnaffected(lt, s.list, s'.list, s.readers[t]);
    }
  }

  lemma PrepareKeepsInv<K(!new)>(lt: (K, K) -> bool, s: State<K>, s': State<K>)
    requires Inv(lt, s) && PrepareNode(s, s')
    ensures Inv(lt, s')
  {
    PrepareKeepsList(lt, s.list, s.writer.node, s.writer.p);
    forall t | t in s'.readers ensures ReaderOk(lt, s'.list, s'.writer, s'.readers[t]) {
      assert ReaderOk(lt, s.list, s.writer, s.readers[t]);
      ViewUnaffected(lt, s.list, s'.list, s.readers[t]);
    }
  }

  lemma PublishKeepsInv<K(!new)>(lt: (K, K) -> bool, s: State<K>, s': State<K>)
    requires StrictTotalOrder(lt) && Inv(lt, s) && PublishNode(s, s')
    ensures Inv(lt, s')
  {
    PublishLinks(lt, s.list, s.writer.node, s.writer.p);
    PublishForward(lt, s.list, s.writer.node, s.writer.p);
    var u := Before(s.list.live, s.writer.p);
    assert Before(s'.list.live, s.writer.p) == u && u in s.list.next;
    StoreKeepsReaders(lt, s, s'.list, u);
  }

  lemma BypassKeepsInv<K(!new)>(lt: (K, K) -> bool, s: State<K>, s': State<K>)
    requires StrictTotalOrder(lt) && Inv(lt, s) && BypassDoomed(s, s')
    ensures Inv(lt, s')
  {
    BypassLinks(lt, s.list, s.writer.p, s.writer.r);
    BypassForward(lt, s.list, s.writer.p, s.writer.r);
    var u := Before(s.list.live, s.writer.p);
    assert Before(s'.list.live, s.writer.p) == u && u in s.list.next;
    StoreKeepsReaders(lt, s, s'.list, u);
  }

  /** Landing on what n points to, n being the header or the last node logged, keeps the log complete. */
  lemma LandingKeepsLog<K(!new)>(lt: (K, K) -> bool, l: Level0<K>, r: Reader, n: Id)
    requires StrictTotalOrder(lt) && ListOk(lt, l) && ViewOk(lt, l, r) && n in l.next
    requires forall m | m in r.visited :: m in r.seen
    requires forall i, j | 0 <= i < j < |r.visited| :: After(lt, l.key, r.visited[i], r.visited[j])
    requires if r.visited == [] then n == HEADER else n == r.visited[|r.visited| - 1] != HEADER
    requires forall m | m in r.kept && !After(lt, l.key, n, m) :: m in r.visited
    ensures LogOk(lt, l.key, Landing(r, l.next[n]))
  {
    var r' := Landing(r, l.next[n]);
    match l.next[n] {
      case None =>
        assert forall m | m in r.kept :: !After(lt, l.key, n, m);
      case Some(c) =>
        if n == HEADER { var q := Position(l, n); }
        assert After(lt, l.key, n, c) && c in r.seen;
        forall i | 0 <= i < |r.visited| ensures After(lt, l.key, r.visited[i], c) {
          assert Transitive(lt, l.key[r.visited[i]], l.key[n], l.key[c]);
        }
        forall m | m in r.kept && !After(lt, l.key, c, m) ensures m in r'.visited {
          if After(lt, l.key, n, m) {
            assert !lt(l.key[m], l.key[c]);
            assert Trichotomy(lt, l.key[c], l.key[m]);
          }
        }
    }
  }

  lemma FreshView<K(!new)>(lt: (K, K) -> bool, l: Level0<K>)
    requires StrictTotalOrder(lt) && ListOk(lt, l)
    ensures ViewOk(lt, l, Started(l))
  {
    var r := Started(l);
    forall n | n in l.live && l.next[n].Some? ensures l.next[n].value in l.live {
      var q := Position(l, n);
    }
    forall n, m | (n == HEADER || n in l.live) && m in l.live && After(lt, l.key, n, m)
      ensures n in l.next && l.next[n].Some? && l.next[n].value in l.key && !lt(l.key[m], l.key[l.next[n].value])
    {
      var q := Position(l, n);
      ListJump(lt, l, q, m);
    }
    forall n, m | n in l.live && m in l.live && l.key[n] == l.key[m] ensures n == m { LiveKeysDiffer(lt, l, n, m); }
  }

  lemma StartKeepsInv<K(!new)>(lt: (K, K) -> bool, s: State<K>, s': State<K>, t: nat)
    requires StrictTotalOrder(lt) && Inv(lt, s) && StartRead(s, s', t)
    ensures Inv(lt, s')
  {
    FreshView(lt, s.list);
    LandingKeepsLog(lt, s.list, Started(s.list), HEADER);
  }

  lemma AdvanceKeepsInv<K(!new)>(lt: (K, K) -> bool, s: State<K>, s': State<K>, t: nat)
    requires StrictTotalOrder(lt) && Inv(lt, s) && AdvanceRead(s, s', t)
    ensures Inv(lt, s')
  {
    var r := s.readers[t];
    assert ReaderOk(lt, s.list, s.writer, r) && r.cursor.id in r.visited;
    LandingKeepsLog(lt, s.list, r, r.cursor.id);
  }

  lemma StepKeepsInv<K(!new)>(lt: (K, K) -> bool, s: State<K>, s': State<K>)
    requires StrictTotalOrder(lt) && Inv(lt, s) && Step(lt, s, s')
    ensures Inv(lt, s')
  {
    if k, node, p :| BeginPut(lt, s, s', k, node, p) {
      BeginPutKeepsInv(lt, s, s', k, node, p);
    } else if PrepareNode(s, s') {
      PrepareKeepsInv(lt, s, s');
    } else if PublishNode(s, s') {
      PublishKeepsInv(lt, s, s');
    } else if BypassDoomed(s, s') {
      BypassKeepsInv(lt, s, s');
    } else if t :| StartRead(s, s', t) {
      StartKeepsInv(lt, s, s', t);
    } else if t :| AdvanceRead(s, s', t) {
      AdvanceKeepsInv(lt, s, s', t);
    }
  }

  // ---------- whole runs ----------

  ghost predicate Run<K(!new)>(lt: (K, K) -> bool, tr: seq<State<K>>) {
    |tr| > 0 && Init(tr[0]) && forall i | 0 <= i < |tr| - 1 :: Step(lt, tr[i], tr[i + 1])
  }

  lemma {:induction false} RunKeepsInv<K(!new)>(lt: (K, K) -> bool, tr: seq<State<K>>, i: nat)
    requires StrictTotalOrder(lt) && Run(lt, tr) && i < |tr|
    ensures Inv(lt, tr[i])
  {
    if i > 0 {
      RunKeepsInv(lt, tr, i - 1);
      assert Step(lt, tr[i - 1], tr[i - 1 + 1]);
      StepKeepsInv(lt, tr[i - 1], tr[i]);
    }
  }

  lemma StepOnReader<K(!new)>(lt: (K, K) -> bool, s: State<K>, s': State<K>, t: nat)
    requires Step(lt, s, s') && t in s.readers
    ensures t in s'.readers
    ensures || s'.readers[t] == Observe(s.readers[t], Members(s'.list.live))
            || (s'.list.live == s.list.live && s'.readers[t].seen == s.readers[t].seen
                && s'.readers[t].kept == s.readers[t].kept)
  {
    if k, node, p :| BeginPut(lt, s, s', k, node, p) {
    } else if x :| StartRead(s, s', x) {
    } else if x :| AdvanceRead(s, s', x) {
    }
  }

  lemma StepNewReader<K(!new)>(lt: (K, K) -> bool, s: State<K>, s': State<K>, t: nat)
    requires Step(lt, s, s') && t !in s.readers && t in s'.readers
    ensures s'.readers[t].seen == s'.readers[t].kept == Members(s'.list.live)
  {
    if k, node, p :| BeginPut(lt, s, s', k, node, p) {
    } else if x :| StartRead(s, s', x) {
    } else if x :| AdvanceRead(s, s', x) {
    }
  }

  /** seen and kept really record the list contents of every state since the start of the traversal. */
  lemma StepTracks<K(!new)>(lt: (K, K) -> bool, s: State<K>, s': State<K>, t: nat)
    requires Inv(lt, s) && Step(lt, s, s') && t in s.readers
    ensures t in s'.readers
    ensures s'.readers[t].seen == s.readers[t].seen + Members(s'.list.live)
    ensures s'.readers[t].kept == s.readers[t].kept * Members(s'.list.live)
  {
    assert ReaderOk(lt, s.list, s.writer, s.readers[t]);
    StepOnReader(lt, s, s', t);
  }

  /** n was linked at some moment between two states of the run. */
  ghost predicate LinkedSometime<K>(tr: seq<State<K>>, from: nat, to: nat, n: Id)
    requires from <= to < |tr|
  {
    exists k :: from <= k <= to && n in tr[k].list.live
  }

  ghost predicate LinkedThroughout<K>(tr: seq<State<K>>, from: nat, to: nat, n: Id)
    requires from <= to < |tr|
  {
    forall k | from <= k <= to :: n in tr[k].list.live
  }

  lemma LinkedExtends<K>(tr: seq<State<K>>, from: nat, to: nat, n: Id)
    requires from <= to < to + 1 < |tr|
    ensures LinkedSometime(tr, from, to + 1, n) <==> LinkedSometime(tr, from, to, n) || n in tr[to + 1].list.live
    ensures LinkedThroughout(tr, from, to + 1, n) <==> LinkedThroughout(tr, from, to, n) && n in tr[to + 1].list.live
  {
  }

  /** What the ghost fields of reader t say about the states from a later one on. */
  ghost predicate Recorded<K>(tr: seq<State<K>>, from: nat, to: nat, r: Reader)
    requires from <= to < |tr|
  {
    && (forall n :: n in r.seen <==> LinkedSometime(tr, from, to, n))
    && (forall n :: n in r.kept <==> LinkedThroughout(tr, from, to, n))
  }

  lemma RecordedExtends<K>(tr: seq<State<K>>, from: nat, to: nat, r: Reader, r': Reader)
    requires from <= to < to + 1 < |tr| && Recorded(tr, from, to, r)
    requires r'.seen == r.seen + Members(tr[to + 1].list.live)
    requires r'.kept == r.kept * Members(tr[to + 1].list.live)
    ensures Recorded(tr, from, to + 1, r')
  {
    forall n
      ensures n in r'.seen <==> LinkedSometime(tr, from, to + 1, n)
      ensures n in r'.kept <==> LinkedThroughout(tr, from, to + 1, n)
    {
      LinkedExtends(tr, from, to, n);
    }
  }

  lemma HistoryStep<K(!new)>(lt: (K, K) -> bool, tr: seq<State<K>>, t: nat, from: nat, k: nat, j: nat)
    requires from <= k < j == k + 1 < |tr| && Inv(lt, tr[k]) && Step(lt, tr[k], tr[j])
    requires t in tr[k].readers && Recorded(tr, from, k, tr[k].readers[t])
    ensures t in tr[j].readers && Recorded(tr, from, j, tr[j].readers[t])
  {
    StepTracks(lt, tr[k], tr[j], t);
    RecordedExtends(tr, from, k, tr[k].readers[t], tr[j].readers[t]);
  }

  lemma HistoryStart<K(!new)>(lt: (K, K) -> bool, tr: seq<State<K>>, t: nat, i: nat, j: nat)
    requires i < j == i + 1 < |tr| && Step(lt, tr[i], tr[j]) && t !in tr[i].readers && t in tr[j].readers
    ensures Recorded(tr, j, j, tr[j].readers[t])
  {
    StepNewReader(lt, tr[i], tr[j], t);
  }

  lemma RunStep<K(!new)>(lt: (K, K) -> bool, tr: seq<State<K>>, k: nat, j: nat)
    requires StrictTotalOrder(lt) && Run(lt, tr) && k < j == k + 1 < |tr|
    ensures Inv(lt, tr[k]) && Step(lt, tr[k], tr[j])
  {
    RunKeepsInv(lt, tr, k);
    assert Step(lt, tr[k], tr[k + 1]);
  }

  lemma {:induction false} HistoryTracked<K(!new)>(lt: (K, K) -> bool, tr: seq<State<K>>, t: nat, i: nat, from: nat, j: nat)
    requires StrictTotalOrder(lt) && Run(lt, tr) && i < from == i + 1 <= j < |tr|
    requires t !in tr[i].readers && t in tr[from].readers
    ensures t in tr[j].readers && Recorded(tr, from, j, tr[j].readers[t])
    decreases j
  {
    var k := j - 1;
    RunStep(lt, tr, k, j);
    if j == from {
      HistoryStart(lt, tr, t, i, j);
    } else {
      HistoryTracked(lt, tr, t, i, from, k);
      HistoryStep(lt, tr, t, from, k, j);
    }
  }

  lemma {:induction false} DistinctFit<K(!new)>(lt: (K, K) -> bool, key: map<Id, K>, ids: seq<Id>)
    requires StrictTotalOrder(lt) && HEADER !in key
    requires forall i, j | 0 <= i < j < |ids| :: After(lt, key, ids[i], ids[j])
    requires forall n | n in ids :: n in key
    ensures |ids| <= |key|
  {
    DistinctCount(lt, key, ids);
    SubsetSize(Members(ids), key.Keys);
    assert |key.Keys| == |key|;
  }

  lemma {:induction false} DistinctCount<K(!new)>(lt: (K, K) -> bool, key: map<Id, K>, ids: seq<Id>)
    requires StrictTotalOrder(lt) && HEADER !in key
    requires forall i, j | 0 <= i < j < |ids| :: After(lt, key, ids[i], ids[j])
    requires forall n | n in ids :: n in key
    ensures |Members(ids)| == |ids|
  {
    if ids != [] {
      var front, x := ids[..|ids| - 1], ids[|ids| - 1];
      DistinctCount(lt, key, front);
      assert Trichotomy(lt, key[x], key[x]);
      assert x !in front;
      assert Members(ids) == Members(front) + {x};
    }
  }

  lemma SubsetSize(a: set<Id>, b: set<Id>)
    requires a <= b
    ensures |a| <= |b|
  {
    assert b == a + (b - a);
  }

  /** The keys of the log, in the order they were met, strictly increase. */
  ghost predicate StrictlyIncreasing<K>(lt: (K, K) -> bool, key: map<Id, K>, ids: seq<Id>) {
    && (forall n | n in ids :: n in key)
    && (forall a, b | 0 <= a < b < |ids| :: lt(key[ids[a]], key[ids[b]]))
  }

  /** A lock-free traversal under arbitrary interference: the keys it sees strictly increase, each was linked
      at some moment of the traversal, nothing linked throughout is missed, and the walk is bounded. */
  lemma TraversalCorrect<K(!new)>(lt: (K, K) -> bool, tr: seq<State<K>>, t: nat, i: nat, j: nat)
    requires StrictTotalOrder(lt) && Run(lt, tr) && i < j < |tr|
    requires t !in tr[i].readers && t in tr[i + 1].readers
    ensures t in tr[j].readers
    ensures StrictlyIncreasing(lt, tr[j].list.key, tr[j].readers[t].visited)
    ensures forall n | n in tr[j].readers[t].visited :: LinkedSometime(tr, i + 1, j, n)
    ensures forall n | LinkedThroughout(tr, i + 1, j, n) ::
              n in tr[j].readers[t].visited
              || (tr[j].readers[t].cursor.At? && After(lt, tr[j].list.key, tr[j].readers[t].cursor.id, n))
    ensures |tr[j].readers[t].visited| <= |tr[j].list.key|
  {
    RunKeepsInv(lt, tr, j);
    HistoryTracked(lt, tr, t, i, i + 1, j);
    LogMeaning(lt, tr[j], t);
  }

  lemma LogMeaning<K(!new)>(lt: (K, K) -> bool, s: State<K>, t: nat)
    requires StrictTotalOrder(lt) && Inv(lt, s) && t in s.readers
    ensures StrictlyIncreasing(lt, s.list.key, s.readers[t].visited)
    ensures forall n | n in s.readers[t].visited :: n in s.readers[t].seen
    ensures forall n | n in s.readers[t].kept ::
              n in s.readers[t].visited
              || (s.readers[t].cursor.At? && After(lt, s.list.key, s.readers[t].cursor.id, n))
    ensures |s.readers[t].visited| <= |s.list.key|
  {
    var r, key := s.readers[t], s.list.key;
    assert ReaderOk(lt, s.list, s.writer, r);
    forall n | n in r.visited ensures n in key { assert n in r.seen; }
    forall a, b | 0 <= a < b < |r.visited| ensures lt(key[r.visited[a]], key[r.visited[b]]) {
      assert After(lt, key, r.visited[a], r.visited[b]) && r.visited[a] in r.visited;
    }
    DistinctFit(lt, key, r.visited);
  }

  /** The finite distance of a reader to the end of its traversal while no node is added. */
  ghost function Distance<K>(s: State<K>, r: Reader): int {
    if r.cursor.Done? then 0 else 1 + |s.list.key| - |r.visited|
  }

  /** A reader is never stuck, and every step it takes uses up distance. */
  lemma TraversalTerminates<K(!new)>(lt: (K, K) -> bool, s: State<K>, t: nat)
    requires StrictTotalOrder(lt) && Inv(lt, s) && t in s.readers && s.readers[t].cursor.At?
    ensures exists s' :: AdvanceRead(s, s', t)
    ensures forall s' :: AdvanceRead(s, s', t) ==>
              s'.list == s.list && 0 <= Distance(s', s'.readers[t]) < Distance(s, s.readers[t])
  {
    var r := s.readers[t];
    assert ReaderOk(lt, s.list, s.writer, r) && r.cursor.id in r.visited;
    assert AdvanceRead(s, s.(readers := s.readers[t := Landing(r, s.list.next[r.cursor.id])]), t);
    LogMeaning(lt, s, t);
    forall s' | AdvanceRead(s, s', t)
      ensures 0 <= Distance(s', s'.readers[t]) < Distance(s, s.readers[t])
    {
      AdvanceKeepsInv(lt, s, s', t);
      LogMeaning(lt, s', t);
    }
  }
}
