/** Blocking clients on keys and serving them again (blocked.c). */
module Blocked {
  import opened Wrappers
  import opened BlockedIndex

  /** The type of the value at a key. */
  datatype ValueType = StringValue | ListValue | SetValue | ZsetValue | HashValue | StreamValue | ModuleValue

  /** getBlockedTypeByType. */
  function KindOf(t: ValueType): (k: Kind) {
    match t
    case ListValue => OnList
    case ZsetValue => OnZset
    case ModuleValue => OnModule
    case StreamValue => OnStream
    case _ => NotBlocked
  }

  datatype Signal = Signal(slot: Slot, value: ValueType, deleted: bool)

  /** The command of a served client, run again: the keys it signals, and how it blocks again, if it does. */
  datatype Again = Again(kind: Kind, keys: seq<Key>, nokey: bool)

  /** What a visited client finds: the type of the key's value, if any, and what its command then does. */
  datatype Visit = Visit(value: Option<ValueType>, signals: seq<Signal>, again: Option<Again>)

  predicate GoodVisit(v: Visit) { v.again.Some? ==> DataKind(v.again.value.kind) }

  /** Whether a waiting client is to be served. */
  predicate Eligible(c: Client, v: Visit) {
    || (v.value.Some? && c.kind == KindOf(v.value.value))
    || (v.value.Some? && c.kind.OnModule?)
    || c.nokey
  }

  /** Served by running its command again; clients of modules are handed to the module instead. */
  predicate Served(c: Client, v: Visit) { Eligible(c, v) && !c.kind.OnModule? }

  predicate Distinct<T(==)>(s: seq<T>) { forall i, j :: 0 <= i < j < |s| ==> s[i] != s[j] }

  ghost predicate Signalled(ready: set<Slot>, queue: seq<Slot>) {
    Distinct(queue) && forall k :: k in ready <==> k in queue
  }

  ghost predicate Queued(cs: Clients, unblocked: seq<nat>) {
    Distinct(unblocked) && (forall c :: c in unblocked ==> c in cs) && forall c :: c in cs ==> (c in unblocked <==> cs[c].queued)
  }

  ghost predicate AllSound(cs: Clients) { forall c :: c in cs ==> Sound(cs[c]) }

  /** `c` has joined the end of the lists of `keys`; all other lists are as before. */
  ghost predicate Joined(w: Waiting, w': Waiting, c: nat, db: nat, keys: set<Key>) {
    forall k: Slot :: JoinedAt(List(w, k), List(w', k), c, k.db == db && k.key in keys)
  }

  predicate JoinedAt(l: seq<Node>, l': seq<Node>, c: nat, joins: bool) {
    if joins then |l'| == |l| + 1 && l <= l' && l'[|l|].client == c else l' == l
  }

  lemma JoinedTwice(w: Waiting, w1: Waiting, w2: Waiting, c: nat, db: nat, a: set<Key>, b: set<Key>)
    requires Joined(w, w1, c, db, a) && Joined(w1, w2, c, db, b) && a !! b
    ensures Joined(w, w2, c, db, a + b)
  {
    forall k: Slot ensures JoinedAt(List(w, k), List(w2, k), c, k.db == db && k.key in a + b) {
      assert JoinedAt(List(w, k), List(w1, k), c, k.db == db && k.key in a);
      assert JoinedAt(List(w1, k), List(w2, k), c, k.db == db && k.key in b);
    }
  }

  lemma RestrictAt(cs: Clients, c: nat, left: set<Key>)
    requires c in cs
    ensures var cs' := Restrict(cs, c, left);
            && c in cs' && cs'[c].db == cs[c].db
            && forall key :: key in cs[c].keys && key in left ==> key in cs'[c].keys && cs'[c].keys[key] == cs[c].keys[key]
  {}

  lemma KeyListed(cs: Clients, w: Waiting, limit: nat, c: nat, key: Key)
    requires Indexed(cs, w, limit) && c in cs && key in cs[c].keys
    ensures Slot(cs[c].db, key) in w
  {
    assert cs[c].keys[key] in List(w, Slot(cs[c].db, key));
  }

  lemma NothingJoined(w: Waiting, c: nat, db: nat)
    ensures Joined(w, w, c, db, {})
  {}

  lemma TalliedAll(cs: Clients, byKind: map<Kind, int>, total: int, kind: Kind)
    requires Tallied(cs, byKind, total)
    ensures kind in byKind
  {}

  lemma TakeFirst(ready: set<Slot>, l: seq<Slot>, queue: seq<Slot>)
    requires l != [] && Signalled(ready, l + queue)
    ensures Signalled(ready - {l[0]}, l[1..] + queue)
  {
    assert (l + queue)[1..] == l[1..] + queue;
    assert (l + queue)[0] == l[0];
    assert forall k :: k in l + queue <==> k == l[0] || k in l[1..] + queue;
  }

  lemma AddReady(ready: set<Slot>, l: seq<Slot>, queue: seq<Slot>, k: Slot)
    requires Signalled(ready, l + queue) && k !in ready
    ensures Signalled(ready + {k}, l + (queue + [k])) && k !in l + queue
  {
    assert l + (queue + [k]) == (l + queue) + [k];
    assert k !in l + queue;
  }

  lemma ReadyIsQueued(ready: set<Slot>, l: seq<Slot>, k: Slot)
    requires Signalled(ready, l)
    ensures k in ready <==> k in l
  {}

  lemma SoundAt(cs: Clients, c: nat)
    requires AllSound(cs) && c in cs
    ensures Sound(cs[c])
  {}

  lemma SoundSet(cs: Clients, c: nat, x: Client)
    requires AllSound(cs) && c in cs && Sound(x)
    ensures AllSound(cs[c := x])
  {}

  lemma WantsSame(cs: Clients, c: nat, x: Client)
    requires c in cs && x.nokey == cs[c].nokey
    ensures Wants(cs[c := x]) == Wants(cs)
  {}

  lemma QueuedAdd(cs: Clients, unblocked: seq<nat>, c: nat)
    requires Queued(cs, unblocked) && c in cs
    ensures Queued(cs[c := cs[c].(queued := true)], if cs[c].queued then unblocked else unblocked + [c])
  {}

  lemma WantsSet(cs: Clients, c: nat, x: Client, nokey: bool)
    requires c in cs && !cs[c].nokey
    ensures c !in Wants(cs)
    ensures Wants(cs[c := x.(nokey := nokey)]) == if nokey then Wants(cs) + {c} else Wants(cs)
  {}

  /** Filling in the key table of a client that is about to block disturbs nothing else. */
  lemma LinkedSame(cs: Clients, c: nat, x: Client, nokey: bool, byKind: map<Kind, int>, total: int, unblocked: seq<nat>)
    requires c in cs && !cs[c].nokey && x == cs[c].(keys := x.keys)
    requires AllSound(cs) && Tallied(cs, byKind, total) && Queued(cs, unblocked)
    ensures Wants(cs[c := x][c := x.(nokey := nokey)]) == if nokey then Wants(cs) + {c} else Wants(cs)
    ensures AllSound(cs[c := x][c := Free(x, false)]) && Tallied(cs[c := x], byKind, total) && Queued(cs[c := x], unblocked)
  {
    hide Wants, AllSound, Tallied, Queued;
    WantsSet(cs, c, x, nokey);
    assert cs[c := x][c := x.(nokey := nokey)] == cs[c := x.(nokey := nokey)];
    TallySame(cs, byKind, total, c, x);
    QueuedSame(cs, unblocked, c, x);
    SoundSet(cs, c, Free(x, false));
    assert cs[c := x][c := Free(x, false)] == cs[c := Free(x, false)];
  }

  lemma QueuedSame(cs: Clients, unblocked: seq<nat>, c: nat, x: Client)
    requires Queued(cs, unblocked) && c in cs && x.queued == cs[c].queued
    ensures Queued(cs[c := x], unblocked)
  {}

  function Elements(keys: seq<Key>): (s: set<Key>) { set k | k in keys }

  /** A client that is no longer blocked. */
  function Free(c: Client, queue: bool): (x: Client) {
    c.(blocked := false, kind := NotBlocked, nokey := false, keys := map[], queued := queue || c.queued)
  }

  lemma NotWaiting(cs: Clients, w: Waiting, limit: nat, c: nat)
    requires Indexed(cs, w, limit) && c in cs && cs[c].keys == map[]
    ensures Without(w, c) == w && cs[c := cs[c].(keys := map[])] == cs
  {
    PartlyAll(cs, w, limit, c);
    PartlyNone(w, c, cs[c].db);
    assert cs[c].keys.Keys == {};
  }

  /** Whether a signal concerns some waiter: counters first, then the key itself. */
  predicate Rings(byKind: map<Kind, int>, w: Waiting, nokeys: map<Slot, nat>, s: Signal) {
    && !KindOf(s.value).NotBlocked?
    && !(KindOf(s.value) in byKind && byKind[KindOf(s.value)] == 0 && OnModule in byKind && byKind[OnModule] == 0)
    && (if s.deleted then s.slot in nokeys else s.slot in w)
  }

  // ----- Serving the clients of one key -----

  /** The clients of the first `n` nodes that are not served, in order. */
  function Staying(cs: Clients, l: seq<Node>, visits: nat -> Visit, n: nat): (r: seq<nat>)
    requires n <= |l| && forall i :: 0 <= i < |l| ==> l[i].client in cs
  {
    if n == 0 then []
    else Staying(cs, l, visits, n - 1)
         + (if Served(cs[l[n - 1].client], visits(n - 1)) then [] else [l[n - 1].client])
  }

  /** The clients of the first `n` nodes that are served, in order. */
  function Serving(cs: Clients, l: seq<Node>, visits: nat -> Visit, n: nat): (r: seq<nat>)
    requires n <= |l| && forall i :: 0 <= i < |l| ==> l[i].client in cs
  {
    if n == 0 then []
    else Serving(cs, l, visits, n - 1)
         + (if Served(cs[l[n - 1].client], visits(n - 1)) then [l[n - 1].client] else [])
  }

  /** A served client whose command, run again, blocks on the same key. */
  predicate ComesBack(c: Client, v: Visit, key: Key) { c.pending && v.again.Some? && key in v.again.value.keys }

  function Returning(cs: Clients, l: seq<Node>, visits: nat -> Visit, n: nat, key: Key): (r: seq<nat>)
    requires n <= |l| && forall i :: 0 <= i < |l| ==> l[i].client in cs
  {
    if n == 0 then []
    else Returning(cs, l, visits, n - 1, key)
         + (var c := cs[l[n - 1].client];
            if Served(c, visits(n - 1)) && ComesBack(c, visits(n - 1), key) then [l[n - 1].client] else [])
  }

  function Names(l: seq<Node>): (r: seq<nat>) { seq(|l|, i requires 0 <= i < |l| => l[i].client) }

  /** The node after `n`, as listNext reads it. */
  function Following(l: seq<Node>, n: Node): (r: Option<Node>) {
    if |l| < 2 then None else if l[0] == n then Some(l[1]) else Following(l[1..], n)
  }

  function First(l: seq<Node>): (r: Option<Node>) { if l == [] then None else Some(l[0]) }

  lemma ListFacts(cs: Clients, w: Waiting, limit: nat, k: Slot)
    requires Indexed(cs, w, limit)
    ensures Once(List(w, k)) && (k in w ==> w[k] != [])
    ensures forall i :: 0 <= i < |List(w, k)| ==> Remembered(cs, k, List(w, k)[i])
  {
    if k in w { assert ListOk(cs, k, w[k], limit); }
  }

  /** After one turn the iterator's next node is in the list, with the rest of the walk behind it. */
  lemma WalkOn(w: Waiting, slot: Slot, stay: seq<Node>, l: seq<Node>, i: nat, back: seq<Node>, more: seq<Node>,
               next: Option<Node>)
    requires i < |l| && Once(List(w, slot)) && next == First(l[i + 1..] + back)
    requires List(w, slot) == stay + (l[i + 1..] + back) + more
    ensures List(w, slot) == stay + l[i + 1..] + (back + more)
    ensures next.Some? ==> next.value in List(w, slot)
    ensures i + 1 < |l| ==> next == Some(l[i + 1])
    ensures i + 1 < |l| ==> Following(List(w, slot), l[i + 1]) == First(l[i + 2..] + (back + more))
  {
    hide Following;
    var cur := List(w, slot);
    assert cur == stay + l[i + 1..] + (back + more);
    if next.Some? {
      assert cur[|stay|] == next.value;
      FollowingAt(cur, |stay|);
    }
  }

  lemma {:induction false} FollowingAt(l: seq<Node>, i: nat)
    requires Once(l) && i < |l|
    ensures Following(l, l[i]) == if i + 1 < |l| then Some(l[i + 1]) else None
  {
    if i > 0 {
      FollowingAt(l[1..], i - 1);
      assert l[1..][i - 1] == l[i];
    }
  }

  lemma {:induction false} DropTwice(l: seq<Node>, c: nat)
    ensures Drop(Drop(l, c), c) == Drop(l, c)
  {
    if l != [] {
      DropTwice(l[1..], c);
      var r := (if l[0].client == c then [] else [l[0]]) + Drop(l[1..], c);
      if l[0].client != c { assert r[1..] == Drop(l[1..], c); } else { assert r == Drop(l[1..], c); }
    }
  }

  lemma WithoutAgain(w: Waiting, k: Slot, c: nat)
    requires k in w
    ensures Without(With(w, k, Drop(w[k], c)), c) == Without(w, c)
  {
    hide Drop;
    DropTwice(w[k], c);
    assert Drop([], c) == [] by { DropNothing([], c); }
  }

  /** The list of one key, in the middle of a walk, when its current client is taken out. */
  lemma TakenOut(w: Waiting, k: Slot, a: seq<Node>, n: Node, b: seq<Node>)
    requires k in w && w[k] == a + [n] + b && Once(w[k])
    ensures List(Without(w, n.client), k) == a + b
  {
    DropAt(w[k], |a|);
    assert w[k][..|a|] == a && w[k][|a| + 1..] == b;
  }

  /** No signal is lost by the early returns: a waiter that could be served makes the signal count. */
  lemma EarlyReturnsSafe(cs: Clients, w: Waiting, limit: nat, nokeys: map<Slot, nat>, byKind: map<Kind, int>, total: int,
                         s: Signal, n: Node)
    requires Indexed(cs, w, limit) && nokeys == Counts(w, Wants(cs)) && AllSound(cs) && Tallied(cs, byKind, total)
    requires n in List(w, s.slot) && n.client in cs
    requires Suits(cs[n.client].kind, s.value) || (cs[n.client].kind.OnModule? && Blocks(s.value))
    requires s.deleted ==> cs[n.client].nokey
    ensures Rings(byKind, w, nokeys, s)
  {
    var c := n.client;
    assert ListOk(cs, s.slot, w[s.slot], limit);
    assert Sound(cs[c]);
    assert c in BlockedOn(cs, cs[c].kind);
    if s.deleted { CountMember(w[s.slot], Wants(cs), n); }
  }

  // ----- Who is served, type by type -----

  /** What each kind of waiting client waits for. */
  predicate Suits(k: Kind, t: ValueType) {
    (k.OnList? && t.ListValue?) || (k.OnZset? && t.ZsetValue?) || (k.OnStream? && t.StreamValue?)
  }

  predicate Blocks(t: ValueType) { t.ListValue? || t.ZsetValue? || t.StreamValue? || t.ModuleValue? }

  /** A waiter is served by the type it waits for, or by anything and nothing if it asked for that. */
  predicate Takes(c: Client, value: Option<ValueType>) {
    !c.kind.OnModule? && (c.nokey || (value.Some? && Suits(c.kind, value.value)))
  }

  lemma ServedExactly(c: Client, v: Visit)
    requires DataKind(c.kind) || c.kind.OnModule?
    ensures Served(c, v) <==> Takes(c, v.value)
  {}

  lemma WaitersAreData(cs: Clients, w: Waiting, limit: nat, k: Slot, i: nat)
    requires Indexed(cs, w, limit) && AllSound(cs) && i < |List(w, k)|
    ensures var c := List(w, k)[i].client; c in cs && (DataKind(cs[c].kind) || cs[c].kind.OnModule?)
  {
    ListFacts(cs, w, limit, k);
    assert Sound(cs[List(w, k)[i].client]);
  }

  lemma {:induction false} ServingHas(cs: Clients, l: seq<Node>, visits: nat -> Visit, n: nat, i: nat)
    requires n <= |l| && Once(l) && i < |l| && forall j :: 0 <= j < |l| ==> l[j].client in cs
    ensures l[i].client in Serving(cs, l, visits, n) <==> i < n && Served(cs[l[i].client], visits(i))
    decreases n
  {
    hide Served;
    if n > 0 { ServingHas(cs, l, visits, n - 1, i); }
  }

  /** The clients of `l` that take `value`, in order. */
  function Takers(cs: Clients, l: seq<Node>, value: Option<ValueType>): (r: seq<nat>)
    requires forall i :: 0 <= i < |l| ==> l[i].client in cs
  {
    if l == [] then []
    else (if Takes(cs[l[0].client], value) then [l[0].client] else []) + Takers(cs, l[1..], value)
  }

  lemma {:induction false} TakersLast(cs: Clients, l: seq<Node>, value: Option<ValueType>)
    requires l != [] && forall i :: 0 <= i < |l| ==> l[i].client in cs
    ensures var n := |l| - 1;
            Takers(cs, l, value) == Takers(cs, l[..n], value) + (if Takes(cs[l[n].client], value) then [l[n].client] else [])
  {
    hide Takes;
    var n := |l| - 1;
    if n == 0 {
      assert l[..0] == [] && l[1..] == [];
    } else {
      var first := if Takes(cs[l[0].client], value) then [l[0].client] else [];
      var t := l[1..];
      TakersLast(cs, t, value);
      assert Takers(cs, l[..n], value) == first + Takers(cs, t[..n - 1], value) by { assert l[..n][1..] == t[..n - 1]; }
      assert Takers(cs, l, value) == first + Takers(cs, t, value);
    }
  }

  /** While the key holds `value` throughout, the walk serves exactly the clients that take it, in order. */
  lemma {:induction false} ServesTakers(cs: Clients, l: seq<Node>, visits: nat -> Visit, n: nat, value: Option<ValueType>)
    requires n <= |l| && forall i :: 0 <= i < |l| ==> l[i].client in cs && (DataKind(cs[l[i].client].kind) || cs[l[i].client].kind.OnModule?)
    requires forall i :: 0 <= i < n ==> visits(i).value == value
    ensures Serving(cs, l, visits, n) == Takers(cs, l[..n], value)
    decreases n
  {
    hide Takes, Served;
    if n > 0 {
      assert l[..n][..n - 1] == l[..n - 1];
      ServesTakers(cs, l, visits, n - 1, value);
      TakersLast(cs, l[..n], value);
      ServedExactly(cs[l[n - 1].client], visits(n - 1));
    }
  }

  /** Client `c` waits for the key of `slot` and takes whatever the visits find there. */
  ghost predicate Due(cs: Clients, slot: Slot, visits: nat -> Visit, c: nat) {
    c in cs && cs[c].db == slot.db && slot.key in cs[c].keys && forall i :: Takes(cs[c], visits(i).value)
  }

  /** Of the waiters `l`, exactly those are served that take what their visit finds; every client that is due is one of them. */
  ghost predicate ServesRight(cs: Clients, l: seq<Node>, slot: Slot, visits: nat -> Visit, served: seq<nat>) {
    && (forall i :: 0 <= i < |l| ==> l[i].client in cs && (l[i].client in served <==> Takes(cs[l[i].client], visits(i).value)))
    && (forall c :: Due(cs, slot, visits, c) ==> c in served)
  }

  lemma {:induction false} CountMember(l: seq<Node>, wants: set<nat>, n: Node)
    requires n in l && n.client in wants
    ensures Count(l, wants) > 0
  {
    if l[0] != n { CountMember(l[1..], wants, n); }
  }

  /** The walk has visited the first `i` of the clients `l`. */
  ghost predicate Midway(cs: Clients, now: Clients, l: seq<Node>, visits: nat -> Visit, i: nat, key: Key,
                         cur: seq<Node>, stay: seq<Node>, back: seq<Node>, served: seq<nat>) {
    && i <= |l| && Once(l) && (forall j :: 0 <= j < |l| ==> l[j].client in cs) && now.Keys == cs.Keys
    && cur == stay + l[i..] + back
    && Names(stay) == Staying(cs, l, visits, i) && Names(back) == Returning(cs, l, visits, i, key)
    && served == Serving(cs, l, visits, i)
    && (forall d :: d in now && d !in served ==> now[d] == cs[d])
    && (forall j :: i <= j < |l| ==> l[j].client !in served)
  }

  lemma MidwayEnds(cs: Clients, now: Clients, l: seq<Node>, visits: nat -> Visit, key: Key,
                   cur: seq<Node>, stay: seq<Node>, back: seq<Node>, served: seq<nat>)
    requires Once(l) && forall j :: 0 <= j < |l| ==> l[j].client in cs
    ensures Midway(cs, cs, l, visits, 0, key, l, [], [], [])
    ensures Midway(cs, now, l, visits, |l|, key, cur, stay, back, served)
            ==> Names(cur) == Staying(cs, l, visits, |l|) + Returning(cs, l, visits, |l|, key)
                && served == Serving(cs, l, visits, |l|) && now.Keys == cs.Keys
                && forall d :: d in now && d !in served ==> now[d] == cs[d]
  {
    assert [] + l[0..] + [] == l;
    assert l[|l|..] == [];
    assert Names(stay + [] + back) == Names(stay) + Names(back);
  }

  lemma MidwayAt(cs: Clients, now: Clients, l: seq<Node>, visits: nat -> Visit, i: nat, key: Key,
                 cur: seq<Node>, stay: seq<Node>, back: seq<Node>, served: seq<nat>)
    requires Midway(cs, now, l, visits, i, key, cur, stay, back, served) && i < |l|
    ensures cur == stay + [l[i]] + (l[i + 1..] + back) && l[i].client in now && now[l[i].client] == cs[l[i].client]
  {
    assert l[i..] == [l[i]] + l[i + 1..];
  }

  lemma MidwayStep(cs: Clients, now: Clients, l: seq<Node>, visits: nat -> Visit, i: nat, key: Key,
                   cur: seq<Node>, stay: seq<Node>, back: seq<Node>, served: seq<nat>,
                   now': Clients, cur': seq<Node>, did: bool, more: seq<Node>)
    requires Midway(cs, now, l, visits, i, key, cur, stay, back, served) && i < |l| && l[i].client in now
    requires now'.Keys == now.Keys && did == Served(now[l[i].client], visits(i))
    requires (forall d :: d in now' && d != l[i].client ==> now'[d] == now[d]) && (!did ==> now' == now)
    requires cur' == (if did then stay else stay + [l[i]]) + (l[i + 1..] + back) + more
    requires Names(more) == if did && ComesBack(now[l[i].client], visits(i), key) then [l[i].client] else []
    ensures Midway(cs, now', l, visits, i + 1, key, cur', if did then stay else stay + [l[i]], back + more,
                   if did then served + [l[i].client] else served)
  {
    hide Served, ComesBack;
    var stay' := if did then stay else stay + [l[i]];
    assert cur' == stay' + l[i + 1..] + (back + more);
    assert Names(back + more) == Names(back) + Names(more);
    assert Names(stay + [l[i]]) == Names(stay) + [l[i].client];
  }

  const KINDS: set<Kind> :=
    {NotBlocked, OnList, OnZset, OnStream, OnModule, OnWait, OnWaitAof, OnPostpone, OnShutdown, OnLazyfree}

  lemma AllKinds(kind: Kind)
    ensures kind in KINDS
  {
    match kind
    case NotBlocked => case OnList => case OnZset => case OnStream => case OnModule =>
    case OnWait => case OnWaitAof => case OnPostpone => case OnShutdown => case OnLazyfree =>
  }

  class Server {
    var clients: Clients
    var waiting: Waiting              // blocking_keys of every database
    var nokeys: map<Slot, nat>        // blocking_keys_unblock_on_nokey
    var byKind: map<Kind, int>        // blocked_clients_by_type
    var total: int                    // blocked_clients
    var ready: set<Slot>              // ready_keys of every database
    var queue: seq<Slot>              // server.ready_keys
    var unblocked: seq<nat>           // unblocked_clients
    var nextNode: nat
    ghost var draining: seq<Slot>     // what is left of the list being handled

    ghost predicate Linked(wants: set<nat>)
      reads this
    {
      Indexed(clients, waiting, nextNode) && nokeys == Counts(waiting, wants)
    }

    ghost predicate Valid()
      reads this
    {
      && Linked(Wants(clients)) && AllSound(clients)
      && Tallied(clients, byKind, total) && Signalled(ready, draining + queue) && Queued(clients, unblocked)
    }

    /** A server whose clients are connected and idle. */
    constructor (idle: Clients)
      requires forall c :: c in idle ==> !idle[c].blocked && idle[c].kind.NotBlocked? && !idle[c].nokey
                                         && idle[c].keys == map[] && !idle[c].queued
      ensures Valid() && clients == idle && draining == []
    {
      clients, waiting, nokeys, total := idle, map[], map[], 0;
      byKind := map kind | kind in KINDS :: 0;
      ready, queue, unblocked, nextNode, draining := {}, [], [], 0, [];
      new;
      forall kind ensures BlockedOn(clients, kind) == {} && kind in KINDS { AllKinds(kind); }
      assert BlockedRegular(clients) == {};
      assert Wants(clients) == {};
    }

    /** One turn of the loop in blockForKeys. */
    method LinkKey(c: nat, key: Key, nokey: bool, ghost wants: set<nat>)
      requires c in clients && Linked(wants) && (nokey <==> c in wants)
      modifies this`clients, this`waiting, this`nokeys, this`nextNode
      ensures Linked(wants) && clients.Keys == old(clients.Keys)
      ensures forall d :: d in clients && d != c ==> clients[d] == old(clients[d])
      ensures clients[c] == old(clients[c]).(keys := clients[c].keys) && clients[c].keys.Keys == old(clients[c].keys.Keys) + {key}
      ensures Joined(old(waiting), waiting, c, clients[c].db, {key} - old(clients[c].keys.Keys))
    {
      hide Indexed, Counts;
      if key in clients[c].keys { return; }
      var k, n := Slot(clients[c].db, key), Node(nextNode, c);
      LinkKeeps(clients, waiting, nextNode, c, key);
      CountsLink(waiting, wants, k, n);
      waiting := waiting[k := (if k in waiting then waiting[k] else []) + [n]];
      clients := clients[c := clients[c].(keys := clients[c].keys[key := n])];
      nextNode := nextNode + 1;
      if nokey {
        if k !in nokeys { nokeys := nokeys[k := 1]; } else { nokeys := nokeys[k := nokeys[k] + 1]; }
      }
    }

    /** The loop of blockForKeys: keys named twice are linked once. */
    method LinkKeys(c: nat, keys: seq<Key>, nokey: bool, ghost wants: set<nat>)
      requires c in clients && clients[c].keys == map[] && Linked(wants) && (nokey <==> c in wants)
      modifies this`clients, this`waiting, this`nokeys, this`nextNode
      ensures Linked(wants) && c in clients && clients == old(clients)[c := old(clients[c]).(keys := clients[c].keys)]
      ensures clients[c].keys.Keys == Elements(keys)
      ensures Joined(old(waiting), waiting, c, clients[c].db, Elements(keys))
    {
      hide Indexed, Counts, Joined;
      assert Elements(keys[..0]) == {};
      NothingJoined(waiting, c, clients[c].db);
      for j := 0 to |keys|
        invariant clients.Keys == old(clients.Keys) && Linked(wants)
        invariant forall d :: d in clients && d != c ==> clients[d] == old(clients[d])
        invariant clients[c] == old(clients[c]).(keys := clients[c].keys) && clients[c].keys.Keys == Elements(keys[..j])
        invariant Joined(old(waiting), waiting, c, clients[c].db, Elements(keys[..j]))
      {
        ghost var w := waiting;
        LinkKey(c, keys[j], nokey, wants);
        assert keys[..j + 1] == keys[..j] + [keys[j]];
        ghost var a, b := Elements(keys[..j]), {keys[j]} - Elements(keys[..j]);
        assert Elements(keys[..j + 1]) == a + b && Elements(keys[..j + 1]) == a + {keys[j]};
        JoinedTwice(old(waiting), w, waiting, c, clients[c].db, a, b);
      }
      assert keys[..|keys|] == keys;
    }

    method BlockForKeys(c: nat, kind: Kind, keys: seq<Key>, nokey: bool)
      requires Valid() && c in clients && !clients[c].blocked && (DataKind(kind) || kind.OnModule?)
      modifies this`clients, this`waiting, this`nokeys, this`nextNode, this`byKind, this`total
      ensures Valid() && c in clients && clients[c].keys.Keys == Elements(keys)
      ensures clients == old(clients)[c := old(clients[c]).(
                           keys := clients[c].keys, nokey := nokey, blocked := true, kind := kind,
                           pending := old(clients[c].pending) || !kind.OnModule?)]
      ensures Joined(old(waiting), waiting, c, clients[c].db, Elements(keys))
    {
      hide Indexed, Counts, Joined, Tallied, Queued, Signalled, AllSound, Wants, Elements;
      ghost var wants := if nokey then Wants(clients) + {c} else Wants(clients);
      SoundAt(clients, c);
      WantsSet(clients, c, clients[c], nokey);
      WantsIrrelevant(clients, waiting, nextNode, Wants(clients), wants, c);
      LinkKeys(c, keys, nokey, wants);
      LinkedSame(old(clients), c, clients[c], nokey, byKind, total, unblocked);
      BlockClient(c, kind, nokey, !kind.OnModule?, wants);
    }

    /** Blocking for anything else than keys: replicas, a pause, a shutdown or a background job. */
    method BlockOther(c: nat, kind: Kind)
      requires Valid() && c in clients && !clients[c].blocked && !kind.NotBlocked? && !DataKind(kind)
      modifies this`clients, this`byKind, this`total
      ensures Valid()
      ensures clients == old(clients)[c := old(clients[c]).(blocked := true, kind := kind,
                                                            pending := old(clients[c].pending) || kind.OnPostpone?)]
    {
      hide Indexed, Counts, Tallied, Queued, Signalled, AllSound, Wants;
      SoundAt(clients, c);
      SoundSet(clients, c, Free(clients[c], false));
      WantsSame(clients, c, clients[c].(nokey := false));
      BlockClient(c, kind, false, kind.OnPostpone?, Wants(clients));
    }

    /** blockClient, after the caller has set the fields of its own. */
    method BlockClient(c: nat, kind: Kind, nokey: bool, pending: bool, ghost wants: set<nat>)
      requires c in clients && Linked(wants) && !clients[c].blocked && !kind.NotBlocked?
      requires AllSound(clients[c := Free(clients[c], false)])
      requires clients[c].keys != map[] ==> DataKind(kind) || kind.OnModule?
      requires wants == Wants(clients[c := clients[c].(nokey := nokey)])
      requires Tallied(clients, byKind, total) && Signalled(ready, draining + queue) && Queued(clients, unblocked)
      modifies this`clients, this`byKind, this`total
      ensures Valid()
      ensures clients == old(clients)[c := old(clients[c]).(nokey := nokey, blocked := true, kind := kind,
                                                            pending := old(clients[c].pending) || pending)]
    {
      hide Indexed, Counts, Tallied, Queued, Signalled, AllSound, Wants;
      var x := clients[c].(nokey := nokey, blocked := true, kind := kind, pending := clients[c].pending || pending);
      TallyBlock(clients, byKind, total, c, x);
      IndexedSame(clients, clients[c := x], waiting, nextNode);
      QueuedSame(clients, unblocked, c, x);
      TalliedAll(clients, byKind, total, kind);
      SoundSet(clients[c := Free(clients[c], false)], c, x);
      assert clients[c := Free(clients[c], false)][c := x] == clients[c := x];
      WantsSame(clients[c := clients[c].(nokey := nokey)], c, x);
      assert clients[c := clients[c].(nokey := nokey)][c := x] == clients[c := x];
      if !clients[c].ofModule { total := total + 1; }
      byKind := byKind[kind := byKind[kind] + 1];
      clients := clients[c := x];
    }

    /**
     * releaseBlockedEntry. `left` are the keys the client is still linked for: its table may hold
     * stale entries for the others until it is emptied in one go.
     */
    method ReleaseBlockedEntry(c: nat, key: Key, removeKey: bool, ghost left: set<Key>)
      requires c in clients && key in clients[c].keys && key in left
      requires Indexed(Restrict(clients, c, left), waiting, nextNode) && nokeys == Counts(waiting, Wants(clients))
      modifies this`clients, this`waiting, this`nokeys
      ensures var k := Slot(old(clients[c].db), key);
              k in old(waiting) && waiting == With(old(waiting), k, Drop(old(waiting)[k], c))
      ensures clients == if removeKey then Forget(old(clients), c, key) else old(clients)
      ensures Indexed(Restrict(clients, c, left - {key}), waiting, nextNode) && nokeys == Counts(waiting, Wants(clients))
    {
      hide Indexed, Counts, Restrict, Drop, Unlink;
      RestrictAt(clients, c, left);
      UnlinkKeeps(Restrict(clients, c, left), waiting, nextNode, c, key);
      RestrictForget(clients, c, left, key);
      var k, n := Slot(clients[c].db, key), clients[c].keys[key];
      UnlinkIsDrop(waiting[k], n);
      CountsUnlink(waiting, Wants(clients), k, n);
      var l := Unlink(waiting[k], n);
      if |l| == 0 {
        waiting := waiting - {k};
        nokeys := nokeys - {k};
      } else {
        waiting := waiting[k := l];
        if clients[c].nokey {
          nokeys := if nokeys[k] == 1 then nokeys - {k} else nokeys[k := nokeys[k] - 1];
        }
      }
      if removeKey {
        clients := Forget(clients, c, key);
        assert Wants(clients) == Wants(old(clients));
      }
    }

    /** One turn of the loop in unblockClientWaitingData. */
    method ReleaseOne(c: nat, key: Key, ghost w: Waiting, ghost left: set<Key>)
      requires c in clients && key in left && left <= clients[c].keys.Keys && Indexed(clients, w, nextNode)
      requires Indexed(Restrict(clients, c, left), waiting, nextNode) && nokeys == Counts(waiting, Wants(clients))
      requires waiting == Partly(w, c, clients[c].db, clients[c].keys.Keys - left)
      modifies this`clients, this`waiting, this`nokeys
      ensures clients == old(clients)
      ensures Indexed(Restrict(clients, c, left - {key}), waiting, nextNode) && nokeys == Counts(waiting, Wants(clients))
      ensures waiting == Partly(w, c, clients[c].db, clients[c].keys.Keys - (left - {key}))
    {
      hide Indexed, Counts, Restrict, Drop, Partly, With, Wants;
      ghost var db, all := clients[c].db, clients[c].keys.Keys;
      KeyListed(clients, w, nextNode, c, key);
      PartlyStep(w, c, db, all - left, key);
      ReleaseBlockedEntry(c, key, false, left);
      assert all - (left - {key}) == all - left + {key};
    }

    /** unblockClientWaitingData. */
    method UnblockClientWaitingData(c: nat)
      requires c in clients && Linked(Wants(clients))
      modifies this`clients, this`waiting, this`nokeys
      ensures Linked(Wants(clients)) && waiting == Without(old(waiting), c)
      ensures clients == old(clients)[c := old(clients[c]).(keys := map[])]
    {
      hide Indexed, Counts, Restrict, Drop, Without, Partly, With, Wants;
      ghost var w, db := waiting, clients[c].db;
      var left := clients[c].keys.Keys;
      ghost var all := left;
      RestrictEnds(clients, c);
      PartlyNone(w, c, db);
      assert all - left == {};
      while left != {}
        invariant clients == old(clients) && left <= all == clients[c].keys.Keys
        invariant Indexed(Restrict(clients, c, left), waiting, nextNode) && nokeys == Counts(waiting, Wants(clients))
        invariant waiting == Partly(w, c, db, all - left)
        decreases |left|
      {
        var key :| key in left;
        ReleaseOne(c, key, w, left);
        left := left - {key};
      }
      assert all - {} == all;
      PartlyAll(clients, w, nextNode, c);
      WantsSame(clients, c, clients[c].(keys := map[]));
      clients := clients[c := clients[c].(keys := map[])];
    }

    /** queueClientForReprocessing: a client is queued at most once. */
    method QueueClientForReprocessing(c: nat)
      requires Valid() && c in clients
      modifies this`clients, this`unblocked
      ensures Valid() && clients == old(clients)[c := old(clients[c]).(queued := true)]
      ensures unblocked == if old(clients[c].queued) then old(unblocked) else old(unblocked) + [c]
    {
      hide Indexed, Counts, Tallied, Signalled, Queued, AllSound, Wants;
      var x := clients[c].(queued := true);
      TallySame(clients, byKind, total, c, x);
      IndexedSame(clients, clients[c := x], waiting, nextNode);
      SoundAt(clients, c);
      SoundSet(clients, c, x);
      WantsSame(clients, c, x);
      QueuedAdd(clients, unblocked, c);
      if !clients[c].queued {
        unblocked := unblocked + [c];
      }
      clients := clients[c := x];
    }

    /** unblockClient. */
    method UnblockClient(c: nat, queueForReprocessing: bool)
      requires Valid() && c in clients && clients[c].blocked
      modifies this`clients, this`waiting, this`nokeys, this`byKind, this`total, this`unblocked
      ensures Valid() && waiting == Without(old(waiting), c)
      ensures clients == old(clients)[c := Free(old(clients[c]), queueForReprocessing)]
      ensures unblocked == if queueForReprocessing && !old(clients[c].queued) then old(unblocked) + [c] else old(unblocked)
    {
      hide Indexed, Counts, Tallied, Signalled, Queued, Without, AllSound, Wants;
      SoundAt(clients, c);
      if DataKind(clients[c].kind) || clients[c].kind.OnModule? {
        UnblockClientWaitingData(c);
      } else {
        NotWaiting(clients, waiting, nextNode, c);
      }
      ClearBlocked(c, old(clients));
      if queueForReprocessing { QueueClientForReprocessing(c); }
    }

    /** The second half of unblockClient: counters and flags. */
    method ClearBlocked(c: nat, ghost was: Clients)
      requires c in was && was[c].blocked && clients == was[c := was[c].(keys := map[])]
      requires Linked(Wants(clients)) && AllSound(was)
      requires Tallied(was, byKind, total) && Signalled(ready, draining + queue) && Queued(was, unblocked)
      modifies this`clients, this`byKind, this`total
      ensures Valid() && clients == was[c := Free(was[c], false)]
    {
      hide Indexed, Counts, Tallied, Signalled, Queued, AllSound;
      var x := Free(clients[c], false);
      ghost var kind := was[c].kind;
      SoundSet(was, c, x);
      TallyUnblock(was, byKind, total, c, x);
      TalliedAll(was, byKind, total, kind);
      QueuedSame(was, unblocked, c, x);
      IndexedSame(clients, clients[c := x], waiting, nextNode);
      WantsIrrelevant(clients, waiting, nextNode, Wants(clients), Wants(clients[c := x]), c);
      if !clients[c].ofModule { total := total - 1; }
      byKind := byKind[clients[c].kind := byKind[clients[c].kind] - 1];
      clients := clients[c := x];
      assert clients == was[c := x];
    }

    method UnblockClientOnTimeout(c: nat, doneByModule: bool)
      requires Valid() && c in clients && clients[c].blocked
      requires !clients[c].kind.OnPostpone? && !clients[c].kind.OnShutdown?
      modifies this`clients, this`waiting, this`nokeys, this`byKind, this`total, this`unblocked
      ensures Valid()
      ensures if old(clients[c]).kind.OnModule? && doneByModule then clients == old(clients) && waiting == old(waiting)
              else waiting == Without(old(waiting), c) && clients == old(clients)[c := Free(old(clients[c]), true).(pending := false)]
    {
      hide Indexed, Counts, Tallied, Signalled, Queued, Without, AllSound, Wants;
      if clients[c].kind.OnModule? && doneByModule { return; }
      ClearPending(c);
      UnblockClient(c, true);
    }

    method UnblockClientOnError(c: nat)
      requires Valid() && c in clients && clients[c].blocked
      modifies this`clients, this`waiting, this`nokeys, this`byKind, this`total, this`unblocked
      ensures Valid() && waiting == Without(old(waiting), c)
      ensures clients == old(clients)[c := Free(old(clients[c]), true).(pending := false)]
    {
      hide Indexed, Counts, Tallied, Signalled, Queued, Without, AllSound, Wants;
      ClearPending(c);
      UnblockClient(c, true);
    }

    method ClearPending(c: nat)
      requires Valid() && c in clients
      modifies this`clients
      ensures Valid() && clients == old(clients)[c := old(clients[c]).(pending := false)]
    {
      hide Indexed, Counts, Tallied, Signalled, Queued, AllSound, Wants;
      var x := clients[c].(pending := false);
      TallySame(clients, byKind, total, c, x);
      QueuedSame(clients, unblocked, c, x);
      IndexedSame(clients, clients[c := x], waiting, nextNode);
      SoundAt(clients, c);
      SoundSet(clients, c, x);
      WantsSame(clients, c, x);
      clients := clients[c := x];
    }

    /** signalKeyAsReadyLogic: a key with waiters is queued once. */
    method SignalKeyAsReady(s: Signal)
      requires Valid()
      modifies this`ready, this`queue
      ensures Valid()
      ensures queue == if Rings(byKind, waiting, nokeys, s) && s.slot !in old(draining + queue) then old(queue) + [s.slot] else old(queue)
    {
      hide Indexed, Counts, Signalled, Queued;
      var kind := KindOf(s.value);
      ReadyIsQueued(ready, draining + queue, s.slot);
      if kind.NotBlocked? { return; }
      TalliedAll(clients, byKind, total, kind);
      TalliedAll(clients, byKind, total, OnModule);
      if byKind[kind] == 0 && byKind[OnModule] == 0 { return; }
      if s.deleted {
        if s.slot !in nokeys { return; }
      } else {
        if s.slot !in waiting { return; }
      }
      if s.slot in ready { return; }
      AddReady(ready, draining, queue, s.slot);
      ready := ready + {s.slot};
      queue := queue + [s.slot];
    }

    method SignalAll(signals: seq<Signal>)
      requires Valid()
      modifies this`ready, this`queue
      ensures Valid()
    {
      for i := 0 to |signals|
        invariant Valid()
      {
        SignalKeyAsReady(signals[i]);
      }
    }

    /** unblockClientOnKey: takes the client out of all its lists and runs its command again. */
    method UnblockClientOnKey(c: nat, key: Key, v: Visit)
      requires Valid() && c in clients && key in clients[c].keys && DataKind(clients[c].kind) && GoodVisit(v)
      modifies this`clients, this`waiting, this`nokeys, this`nextNode, this`byKind, this`total, this`unblocked, this`ready, this`queue
      ensures Valid() && clients.Keys == old(clients.Keys)
      ensures forall d :: d in clients && d != c ==> clients[d] == old(clients[d])
      ensures var keys := if old(clients[c].pending) && v.again.Some? then Elements(v.again.value.keys) else {};
              Joined(Without(old(waiting), c), waiting, c, old(clients[c].db), keys)
    {
      hide Indexed, Counts, Tallied, Signalled, Queued, Without, Joined, AllSound, Wants;
      TakeOut(c, key);
      NothingJoined(waiting, c, clients[c].db);
      if clients[c].pending {
        ClearPending(c);
        SignalAll(v.signals);
        if v.again.Some? {
          BlockForKeys(c, v.again.value.kind, v.again.value.keys, v.again.value.nokey);
        }
        if !clients[c].blocked && !clients[c].ofModule { QueueClientForReprocessing(c); }
      }
    }

    method TakeOut(c: nat, key: Key)
      requires Valid() && c in clients && key in clients[c].keys
      modifies this`clients, this`waiting, this`nokeys, this`byKind, this`total, this`unblocked
      ensures Valid() && waiting == Without(old(waiting), c)
      ensures clients == old(clients)[c := Free(old(clients[c]), false)]
    {
      hide Indexed, Counts, Tallied, Signalled, Queued, Without, Restrict, AllSound, Wants;
      SoundAt(clients, c);
      RestrictEnds(clients, c);
      KeyListed(clients, waiting, nextNode, c, key);
      WithoutAgain(waiting, Slot(clients[c].db, key), c);
      ReleaseBlockedEntry(c, key, true, clients[c].keys.Keys);
      assert clients[c].keys.Keys == old(clients[c].keys.Keys) - {key};
      RestrictEnds(clients, c);
      TallySame(old(clients), byKind, total, c, clients[c]);
      QueuedSame(old(clients), unblocked, c, clients[c]);
      SoundSet(old(clients), c, clients[c]);
      UnblockClient(c, false);
    }

    lemma WaitersKnown(slot: Slot)
      requires Valid()
      ensures Once(List(waiting, slot)) && (slot in waiting ==> waiting[slot] != [])
      ensures forall i :: 0 <= i < |List(waiting, slot)| ==> List(waiting, slot)[i].client in clients
    {
      ListFacts(clients, waiting, nextNode, slot);
    }

    /** One turn of the walk in handleClientsBlockedOnKey. */
    method VisitWaiter(slot: Slot, n: Node, v: Visit, ghost a: seq<Node>, ghost b: seq<Node>)
      returns (did: bool, ghost back: seq<Node>)
      requires Valid() && n.client in clients && GoodVisit(v) && List(waiting, slot) == a + [n] + b
      modifies this`clients, this`waiting, this`nokeys, this`nextNode, this`byKind, this`total, this`unblocked, this`ready, this`queue
      ensures Valid() && clients.Keys == old(clients.Keys) && did == Served(old(clients[n.client]), v)
      ensures forall d :: d in clients && d != n.client ==> clients[d] == old(clients[d])
      ensures !did ==> clients == old(clients)
      ensures List(waiting, slot) == (if did then a else a + [n]) + b + back
      ensures Names(back) == if did && ComesBack(old(clients[n.client]), v, slot.key) then [n.client] else []
    {
      hide Indexed, Counts, Tallied, Signalled, Queued, Without;
      ListFacts(clients, waiting, nextNode, slot);
      assert List(waiting, slot)[|a|] == n;
      back := [];
      var receiver := clients[n.client];
      did := Eligible(receiver, v) && !receiver.kind.OnModule?;
      if did {
        assert Sound(receiver);
        TakenOut(waiting, slot, a, n, b);
        ghost var w := Without(waiting, n.client);
        UnblockClientOnKey(n.client, slot.key, v);
        assert JoinedAt(List(w, slot), List(waiting, slot), n.client, ComesBack(receiver, v, slot.key));
        back := List(waiting, slot)[|a + b|..];
      }
    }

    /** One turn of the loop, and the iterator's next node. */
    method Turn(slot: Slot, node: Node, next: Option<Node>, v: Visit, served: seq<nat>, ghost cs: Clients,
                ghost l: seq<Node>, ghost visits: nat -> Visit, ghost i: nat, ghost stay: seq<Node>, ghost back: seq<Node>)
      returns (served': seq<nat>, node': Option<Node>, next': Option<Node>, ghost stay': seq<Node>, ghost back': seq<Node>)
      requires Valid() && i < |l| && node == l[i] && next == First(l[i + 1..] + back) && v == visits(i) && GoodVisit(v)
      requires Midway(cs, clients, l, visits, i, slot.key, List(waiting, slot), stay, back, served)
      modifies this`clients, this`waiting, this`nokeys, this`nextNode, this`byKind, this`total, this`unblocked, this`ready, this`queue
      ensures Valid() && Midway(cs, clients, l, visits, i + 1, slot.key, List(waiting, slot), stay', back', served')
      ensures i + 1 < |l| ==> node' == Some(l[i + 1]) && next' == First(l[i + 2..] + back')
    {
      hide Valid, Midway, Following, Remembered, Once;
      ghost var before, cur := clients, List(waiting, slot);
      MidwayAt(cs, clients, l, visits, i, slot.key, cur, stay, back, served);
      var did, more := VisitWaiter(slot, node, v, stay, l[i + 1..] + back);
      WaitersKnown(slot);
      MidwayStep(cs, before, l, visits, i, slot.key, cur, stay, back, served, clients, List(waiting, slot), did, more);
      served' := if did then served + [node.client] else served;
      stay' := if did then stay else stay + [l[i]];
      WalkOn(waiting, slot, stay', l, i, back, more, next);
      back' := back + more;
      // The node the iterator moved to before serving is still in the list.
      assert next.Some? ==> next.value in List(waiting, slot);
      node', next' := next, next;
      if node'.Some? { next' := Following(if slot in waiting then waiting[slot] else [], node'.value); }
    }

    lemma WhoIsServed(slot: Slot, visits: nat -> Visit)
      requires Valid()
      ensures var l := List(waiting, slot);
              && (forall i :: 0 <= i < |l| ==> l[i].client in clients)
              && ServesRight(clients, l, slot, visits, Serving(clients, l, visits, |l|))
    {
      hide Counts, Tallied, Signalled, Queued, Served, Takes, Serving;
      var l := List(waiting, slot);
      WaitersKnown(slot);
      forall i | 0 <= i < |l| ensures l[i].client in Serving(clients, l, visits, |l|) <==> Takes(clients[l[i].client], visits(i).value) {
        ServingHas(clients, l, visits, |l|, i);
        WaitersAreData(clients, waiting, nextNode, slot, i);
        ServedExactly(clients[l[i].client], visits(i));
      }
      forall c | Due(clients, slot, visits, c) ensures c in Serving(clients, l, visits, |l|) {
        ExactlyOnce(clients, waiting, nextNode, c, slot);
        var i :| 0 <= i < |l| && l[i].client == c;
        assert Takes(clients[c], visits(i).value);
      }
    }

    /**
     * handleClientsBlockedOnKey. The walk visits every client that waited when it began, once and in
     * order, although serving a client takes its node out and may append a new one. Those that are
     * not served keep their order; those that block again on this key follow them.
     */
    method HandleClientsBlockedOnKey(slot: Slot, visits: nat -> Visit) returns (served: seq<nat>)
      requires Valid() && forall i :: GoodVisit(visits(i))
      modifies this`clients, this`waiting, this`nokeys, this`nextNode, this`byKind, this`total, this`unblocked, this`ready, this`queue
      ensures Valid() && clients.Keys == old(clients.Keys)
      ensures forall i :: 0 <= i < |List(old(waiting), slot)| ==> List(old(waiting), slot)[i].client in old(clients)
      ensures var l := List(old(waiting), slot);
              && served == Serving(old(clients), l, visits, |l|)
              && Names(List(waiting, slot)) == Staying(old(clients), l, visits, |l|) + Returning(old(clients), l, visits, |l|, slot.key)
      ensures forall d :: d in clients && d !in served ==> clients[d] == old(clients[d])
      ensures ServesRight(old(clients), List(old(waiting), slot), slot, visits, served)
    {
      WhoIsServed(slot, visits);
      hide Valid, Staying, Serving, Returning, Names, ServesRight;
      served := ServeWaiters(slot, visits);
    }

    method ServeWaiters(slot: Slot, visits: nat -> Visit) returns (served: seq<nat>)
      requires Valid() && forall i :: GoodVisit(visits(i))
      modifies this`clients, this`waiting, this`nokeys, this`nextNode, this`byKind, this`total, this`unblocked, this`ready, this`queue
      ensures Valid() && clients.Keys == old(clients.Keys)
      ensures forall i :: 0 <= i < |List(old(waiting), slot)| ==> List(old(waiting), slot)[i].client in old(clients)
      ensures var l := List(old(waiting), slot);
              && served == Serving(old(clients), l, visits, |l|)
              && Names(List(waiting, slot)) == Staying(old(clients), l, visits, |l|) + Returning(old(clients), l, visits, |l|, slot.key)
      ensures forall d :: d in clients && d !in served ==> clients[d] == old(clients[d])
    {
      hide Valid, Midway, Staying, Serving, Returning, Following, Names, Remembered;
      served := [];
      ghost var l, cs := List(waiting, slot), clients;
      WaitersKnown(slot);
      MidwayEnds(cs, cs, l, visits, slot.key, l, [], [], []);
      if slot !in waiting { return; }
      var count: nat, i: nat := |waiting[slot]|, 0;
      var node := Some(waiting[slot][0]);
      var next := Following(waiting[slot], node.value);
      ghost var stay: seq<Node>, back: seq<Node> := [], [];
      FollowingAt(l, 0);
      assert l[1..] + [] == l[1..];
      while node.Some? && count > 0
        invariant Valid() && i + count == |l|
        invariant Midway(cs, clients, l, visits, i, slot.key, List(waiting, slot), stay, back, served)
        invariant count > 0 ==> node == Some(l[i]) && next == First(l[i + 1..] + back)
        decreases count
      {
        count := count - 1;
        served, node, next, stay, back := Turn(slot, node.value, next, visits(i), served, cs, l, visits, i, stay, back);
        i := i + 1;
      }
      MidwayEnds(cs, clients, l, visits, slot.key, List(waiting, slot), stay, back, served);
    }

    /**
     * handleClientsBlockedOnKeys, for at most `passes` turns of its outer loop. Each pass takes over
     * the whole list of ready keys; a key leaves the set before it is handled, so it can be signalled
     * again and is then in the list of the next pass. Nobody is forgotten: a client that waits for a
     * queued key, and takes what the key holds when it is handled, is served by it or by an earlier one.
     */
    method HandleClientsBlockedOnKeys(passes: nat, visits: (nat, nat) -> nat -> Visit) returns (drained: bool, served: seq<nat>)
      requires Valid() && draining == [] && forall p, q, i :: GoodVisit(visits(p, q)(i))
      modifies this
      ensures Valid() && draining == [] && clients.Keys == old(clients.Keys)
      ensures drained <==> queue == []
      ensures drained ==> ready == {}
      ensures forall d :: d in clients && d !in served ==> clients[d] == old(clients[d])
      ensures passes > 0 ==> AllServed(old(clients), old(queue), 0, visits, served)
    {
      hide Valid, Due;
      served := [];
      for p := 0 to passes
        invariant Valid() && draining == [] && clients.Keys == old(clients.Keys)
        invariant forall d :: d in clients && d !in served ==> clients[d] == old(clients[d])
        invariant p == 0 ==> queue == old(queue)
        invariant p > 0 ==> AllServed(old(clients), old(queue), 0, visits, served)
      {
        if queue == [] { break; }
        served := OnePass(p, visits, old(clients), served);
      }
      drained := queue == [];
      if drained { NothingReady(); }
    }

    lemma NothingReady()
      requires Valid() && draining == [] && queue == []
      ensures ready == {}
    {
      hide Indexed, Counts, Tallied, Queued;
      assert draining + queue == [];
    }

    /** One turn of the outer loop, over the keys that are ready when it begins. */
    method OnePass(p: nat, visits: (nat, nat) -> nat -> Visit, ghost cs: Clients, before: seq<nat>) returns (served: seq<nat>)
      requires Valid() && draining == [] && clients.Keys == cs.Keys && forall p, q, i :: GoodVisit(visits(p, q)(i))
      requires forall d :: d in clients && d !in before ==> clients[d] == cs[d]
      modifies this
      ensures Valid() && draining == [] && clients.Keys == cs.Keys && forall c :: c in before ==> c in served
      ensures forall d :: d in clients && d !in served ==> clients[d] == cs[d]
      ensures AllServed(cs, old(queue), p, visits, served)
    {
      hide Valid, Due, ServesRight;
      served := before;
      var l := queue;
      TakeOver();
      for q := 0 to |l|
        invariant Valid() && draining == l[q..] && clients.Keys == cs.Keys && forall c :: c in before ==> c in served
        invariant forall d :: d in clients && d !in served ==> clients[d] == cs[d]
        invariant forall r, c :: 0 <= r < q && Due(cs, l[r], visits(p, r), c) ==> c in served
      {
        assert l[q..][0] == l[q] && l[q..][1..] == l[q + 1..];
        TakeKey(l[q]);
        ghost var now, waiters := clients, List(waiting, l[q]);
        var more := HandleClientsBlockedOnKey(l[q], visits(p, q));
        forall c | Due(cs, l[q], visits(p, q), c) && c !in served ensures c in more {
          DueIsServed(cs, now, waiters, l[q], visits(p, q), more, c);
        }
        served := served + more;
      }
      assert l[|l|..] == [];
    }

    /** The pass takes the whole list over. */
    method TakeOver()
      requires Valid() && draining == []
      modifies this`queue, this`draining
      ensures Valid() && queue == [] && draining == old(queue)
    {
      hide Indexed, Counts, Tallied, Queued, AllSound;
      assert draining + queue == queue + [];
      queue, draining := [], queue;
    }

    /** A key leaves the set of ready keys before it is handled. */
    method TakeKey(k: Slot)
      requires Valid() && draining != [] && draining[0] == k
      modifies this`ready, this`draining
      ensures Valid() && draining == old(draining)[1..]
    {
      hide Indexed, Counts, Tallied, Queued, AllSound;
      TakeFirst(ready, draining, queue);
      ready := ready - {k};
      draining := draining[1..];
    }

    lemma WaiterRings(s: Signal, c: nat)
      requires Valid() && c in clients && clients[c].db == s.slot.db && s.slot.key in clients[c].keys
      requires !s.deleted && Suits(clients[c].kind, s.value)
      ensures Rings(byKind, waiting, nokeys, s)
    {
      hide Rings, Signalled, Queued;
      ExactlyOnce(clients, waiting, nextNode, c, s.slot);
      var l := List(waiting, s.slot);
      var i :| 0 <= i < |l| && l[i].client == c;
      EarlyReturnsSafe(clients, waiting, nextNode, nokeys, byKind, total, s, l[i]);
    }
  }

  /** Every client due at a key of `keys` is among those served. */
  ghost predicate AllServed(cs: Clients, keys: seq<Slot>, p: nat, visits: (nat, nat) -> nat -> Visit, served: seq<nat>) {
    forall q, c :: 0 <= q < |keys| && Due(cs, keys[q], visits(p, q), c) ==> c in served
  }

  lemma DueIsServed(cs: Clients, now: Clients, l: seq<Node>, slot: Slot, visits: nat -> Visit, served: seq<nat>, c: nat)
    requires Due(cs, slot, visits, c) && (c in cs ==> c in now && now[c] == cs[c]) && ServesRight(now, l, slot, visits, served)
    ensures c in served
  {
    hide Takes;
    assert Due(now, slot, visits, c);
  }

  /**
   * A signal and the next turn of the event loop: a client that waits for the key, and finds there
   * the type it waits for, is served.
   */
  method SignalReachesWaiter(server: Server, s: Signal, c: nat, visits: (nat, nat) -> nat -> Visit) returns (served: seq<nat>)
    requires server.Valid() && server.draining == [] && forall p, q, i :: GoodVisit(visits(p, q)(i))
    requires c in server.clients && server.clients[c].db == s.slot.db && s.slot.key in server.clients[c].keys
    requires !s.deleted && Suits(server.clients[c].kind, s.value)
    requires forall q, i :: visits(0, q)(i).value == Some(s.value)
    modifies server
    ensures server.Valid() && c in served
  {
    server.WaiterRings(s, c);
    hide Server.Valid, Rings, Due, AllServed;
    server.SignalKeyAsReady(s);
    ghost var cs, keys := server.clients, server.queue;
    assert s.slot in keys;
    var drained: bool;
    drained, served := server.HandleClientsBlockedOnKeys(1, visits);
    SuitedIsServed(cs, keys, s.slot, s.value, visits, served, c);
  }

  lemma SuitedIsServed(cs: Clients, keys: seq<Slot>, slot: Slot, t: ValueType, visits: (nat, nat) -> nat -> Visit, served: seq<nat>, c: nat)
    requires AllServed(cs, keys, 0, visits, served) && slot in keys && forall q, i :: visits(0, q)(i).value == Some(t)
    requires c in cs && cs[c].db == slot.db && slot.key in cs[c].keys && Suits(cs[c].kind, t)
    ensures c in served
  {
    var q :| 0 <= q < |keys| && keys[q] == slot;
    assert Due(cs, keys[q], visits(0, q), c);
  }

  /** What can happen to a server. */
  datatype Happening =
    | BlocksOnKeys(c: nat, kind: Kind, keys: seq<Key>, nokey: bool)
    | BlocksOtherwise(c: nat, kind: Kind)
    | KeyTouched(s: Signal)
    | TimesOut(c: nat, doneByModule: bool)
    | Errs(c: nat)
    | ServesReady(passes: nat, visits: (nat, nat) -> nat -> Visit)

  /** Whether it can happen now. */
  predicate Possible(cs: Clients, h: Happening) {
    match h
    case BlocksOnKeys(c, kind, _, _) => c in cs && !cs[c].blocked && (DataKind(kind) || kind.OnModule?)
    case BlocksOtherwise(c, kind) => c in cs && !cs[c].blocked && !kind.NotBlocked? && !DataKind(kind)
    case KeyTouched(_) => true
    case TimesOut(c, _) => c in cs && cs[c].blocked && !cs[c].kind.OnPostpone? && !cs[c].kind.OnShutdown?
    case Errs(c) => c in cs && cs[c].blocked
    case ServesReady(_, _) => true
  }

  ghost predicate GoodVisits(h: Happening) {
    h.ServesReady? ==> forall p, q, i :: GoodVisit(h.visits(p, q)(i))
  }

  /**
   * After any sequence of such steps, for every client and key: the client is in the key's waiting
   * list, once, exactly if the key is in its own table; the counter of the key is the number of its
   * waiters that asked for it; and the counter of a kind is the number of clients blocked on it.
   */
  method RunAll(server: Server, hs: seq<Happening>)
    requires server.Valid() && server.draining == [] && forall i :: 0 <= i < |hs| ==> GoodVisits(hs[i])
    modifies server
    ensures server.Valid() && server.clients.Keys == old(server.clients.Keys)
    ensures forall c, key :: c in server.clients ==>
              (key in server.clients[c].keys <==> Waits(server.waiting, Slot(server.clients[c].db, key), c))
    ensures forall k :: (k in server.nokeys <==> Count(List(server.waiting, k), Wants(server.clients)) > 0)
                        && (k in server.nokeys ==> server.nokeys[k] == Count(List(server.waiting, k), Wants(server.clients)))
    ensures forall k :: k in server.waiting ==> server.waiting[k] != [] && Once(server.waiting[k])
    ensures forall kind :: kind in server.byKind && server.byKind[kind] == |BlockedOn(server.clients, kind)|
  {
    hide Server.Valid;
    for i := 0 to |hs|
      invariant server.Valid() && server.draining == [] && server.clients.Keys == old(server.clients.Keys)
    {
      assert GoodVisits(hs[i]);
      if Possible(server.clients, hs[i]) { Happens(server, hs[i]); }
    }
    Consequences(server);
  }

  predicate Waits(w: Waiting, k: Slot, c: nat) { exists i :: 0 <= i < |List(w, k)| && List(w, k)[i].client == c }

  method Happens(server: Server, h: Happening)
    requires server.Valid() && server.draining == [] && Possible(server.clients, h) && GoodVisits(h)
    modifies server
    ensures server.Valid() && server.draining == [] && server.clients.Keys == old(server.clients.Keys)
  {
    hide Server.Valid;
    match h {
      case BlocksOnKeys(c, kind, keys, nokey) => server.BlockForKeys(c, kind, keys, nokey);
      case BlocksOtherwise(c, kind) => server.BlockOther(c, kind);
      case KeyTouched(s) => server.SignalKeyAsReady(s);
      case TimesOut(c, doneByModule) => server.UnblockClientOnTimeout(c, doneByModule);
      case Errs(c) => server.UnblockClientOnError(c);
      case ServesReady(passes, visits) => var drained, served := server.HandleClientsBlockedOnKeys(passes, visits);
    }
  }

  lemma Consequences(server: Server)
    requires server.Valid()
    ensures forall c, key :: c in server.clients ==>
              (key in server.clients[c].keys <==> Waits(server.waiting, Slot(server.clients[c].db, key), c))
    ensures forall k :: (k in server.nokeys <==> Count(List(server.waiting, k), Wants(server.clients)) > 0)
                        && (k in server.nokeys ==> server.nokeys[k] == Count(List(server.waiting, k), Wants(server.clients)))
    ensures forall k :: k in server.waiting ==> server.waiting[k] != [] && Once(server.waiting[k])
    ensures forall kind :: kind in server.byKind && server.byKind[kind] == |BlockedOn(server.clients, kind)|
  {
    var cs, w := server.clients, server.waiting;
    forall c, key | c in cs ensures key in cs[c].keys <==> Waits(w, Slot(cs[c].db, key), c) {
      ExactlyOnce(cs, w, server.nextNode, c, Slot(cs[c].db, key));
    }
    forall k | k in w ensures w[k] != [] && Once(w[k]) { ListFacts(cs, w, server.nextNode, k); }
  }
}
