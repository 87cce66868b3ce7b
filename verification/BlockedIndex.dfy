/**
 * The two-way index between blocked clients and the keys they wait for (blocked.c): a client's
 * own table of keys holds its node in the waiting list of each key, and every waiting list holds
 * each of its clients once.
 */
module BlockedIndex {
  type Key = string

  /** A key of one database. */
  datatype Slot = Slot(db: nat, key: Key)

  /** A node of a waiting list, by identity. */
  datatype Node = Node(id: nat, client: nat)

  datatype Kind =
    | NotBlocked | OnList | OnZset | OnStream | OnModule | OnWait | OnWaitAof | OnPostpone | OnShutdown | OnLazyfree

  datatype Client = Client(db: nat, ofModule: bool, blocked: bool, kind: Kind, nokey: bool,
                           keys: map<Key, Node>, pending: bool, queued: bool)

  type Clients = map<nat, Client>
  type Waiting = map<Slot, seq<Node>>

  predicate DataKind(k: Kind) { k.OnList? || k.OnZset? || k.OnStream? }

  /** A client that is not blocked waits for nothing; one with keys is blocked on data or by a module. */
  predicate Sound(c: Client) {
    && (c.blocked <==> !c.kind.NotBlocked?)
    && (!c.blocked ==> !c.nokey)
    && (c.keys != map[] ==> DataKind(c.kind) || c.kind.OnModule?)
  }

  function List(w: Waiting, k: Slot): (l: seq<Node>) { if k in w then w[k] else [] }

  // ----- The index -----

  predicate Once(l: seq<Node>) { forall i, j :: 0 <= i < j < |l| ==> l[i].client != l[j].client }

  /** A node of the list of `k` is the one its client remembers for that key. */
  predicate Remembered(cs: Clients, k: Slot, n: Node) {
    && n.client in cs && cs[n.client].db == k.db
    && k.key in cs[n.client].keys && cs[n.client].keys[k.key] == n
  }

  predicate ListOk(cs: Clients, k: Slot, l: seq<Node>, limit: nat) {
    && l != [] && Once(l)
    && forall i :: 0 <= i < |l| ==> Remembered(cs, k, l[i]) && l[i].id < limit
  }

  ghost predicate Indexed(cs: Clients, w: Waiting, limit: nat) {
    && (forall k :: k in w ==> ListOk(cs, k, w[k], limit))
    && (forall c, key :: c in cs && key in cs[c].keys ==> cs[c].keys[key] in List(w, Slot(cs[c].db, key)) && cs[c].keys[key].client == c)
  }

  /** A client is in the list of a key, and only once, exactly if the key is in its own table. */
  lemma ExactlyOnce(cs: Clients, w: Waiting, limit: nat, c: nat, k: Slot)
    requires Indexed(cs, w, limit) && c in cs && cs[c].db == k.db
    ensures k.key in cs[c].keys <==> exists i :: 0 <= i < |List(w, k)| && List(w, k)[i].client == c
    ensures k.key in cs[c].keys ==> cs[c].keys[k.key] in List(w, k) && Once(List(w, k))
  {
    if k.key in cs[c].keys {
      assert cs[c].keys[k.key] in List(w, k);
      var i :| 0 <= i < |List(w, k)| && List(w, k)[i] == cs[c].keys[k.key];
    }
  }

  /** The list without the nodes of one client. */
  function Drop(l: seq<Node>, c: nat): (r: seq<Node>) {
    if l == [] then [] else (if l[0].client == c then [] else [l[0]]) + Drop(l[1..], c)
  }

  /** listUnlinkNode. */
  function Unlink(l: seq<Node>, n: Node): (r: seq<Node>) {
    if l == [] then [] else if l[0] == n then l[1..] else [l[0]] + Unlink(l[1..], n)
  }

  lemma {:induction false} DropMembers(l: seq<Node>, c: nat, n: Node)
    ensures n in Drop(l, c) <==> n in l && n.client != c
  {
    if l != [] { DropMembers(l[1..], c, n); }
  }

  lemma {:induction false} DropNothing(l: seq<Node>, c: nat)
    requires forall i :: 0 <= i < |l| ==> l[i].client != c
    ensures Drop(l, c) == l
  {
    if l != [] { DropNothing(l[1..], c); }
  }

  lemma {:induction false} DropOnce(l: seq<Node>, c: nat)
    requires Once(l)
    ensures Once(Drop(l, c))
  {
    if l != [] {
      DropOnce(l[1..], c);
      var d := Drop(l[1..], c);
      forall j | 0 <= j < |d| ensures d[j].client != l[0].client {
        DropMembers(l[1..], c, d[j]);
        assert d[j] in l[1..];
      }
    }
  }

  lemma {:induction false} DropAt(l: seq<Node>, i: nat)
    requires Once(l) && i < |l|
    ensures Drop(l, l[i].client) == l[..i] + l[i + 1..]
  {
    var c := l[i].client;
    if i == 0 {
      DropNothing(l[1..], c);
    } else {
      DropAt(l[1..], i - 1);
      assert l[1..][i - 1] == l[i];
      assert l[..i] + l[i + 1..] == [l[0]] + (l[1..][..i - 1] + l[1..][i..]);
    }
  }

  lemma {:induction false} UnlinkAt(l: seq<Node>, i: nat)
    requires Once(l) && i < |l|
    ensures Unlink(l, l[i]) == l[..i] + l[i + 1..]
  {
    if i > 0 {
      UnlinkAt(l[1..], i - 1);
      assert l[1..][i - 1] == l[i];
      assert l[..i] + l[i + 1..] == [l[0]] + (l[1..][..i - 1] + l[1..][i..]);
    }
  }

  /** Unlinking the node a client remembers removes that client from the list. */
  lemma UnlinkIsDrop(l: seq<Node>, n: Node)
    requires Once(l) && n in l
    ensures Unlink(l, n) == Drop(l, n.client)
  {
    var i :| 0 <= i < |l| && l[i] == n;
    UnlinkAt(l, i);
    DropAt(l, i);
  }

  function With(w: Waiting, k: Slot, l: seq<Node>): (w': Waiting) {
    if l == [] then w - {k} else w[k := l]
  }

  lemma LinkKeeps(cs: Clients, w: Waiting, limit: nat, c: nat, key: Key)
    requires Indexed(cs, w, limit) && c in cs && key !in cs[c].keys
    ensures var k, n := Slot(cs[c].db, key), Node(limit, c);
            Indexed(cs[c := cs[c].(keys := cs[c].keys[key := n])], w[k := List(w, k) + [n]], limit + 1)
  {
    var k, n := Slot(cs[c].db, key), Node(limit, c);
    var cs', w' := cs[c := cs[c].(keys := cs[c].keys[key := n])], w[k := List(w, k) + [n]];
    forall j | j in w' ensures ListOk(cs', j, w'[j], limit + 1) {
      if j in w { LinkList(cs, w, limit, c, key, j); }
      if j == k { AppendOk(cs', k, List(w, k), n, limit, c); }
    }
    forall d, e | d in cs' && e in cs'[d].keys
      ensures cs'[d].keys[e] in List(w', Slot(cs'[d].db, e)) && cs'[d].keys[e].client == d
    {
      if d == c && e == key {
        assert List(w', k)[|List(w, k)|] == n;
      } else {
        assert e in cs[d].keys && cs'[d].keys[e] == cs[d].keys[e];
        assert cs[d].keys[e] in List(w, Slot(cs[d].db, e));
      }
    }
  }

  /** The nodes already in a list are still remembered. */
  lemma LinkList(cs: Clients, w: Waiting, limit: nat, c: nat, key: Key, j: Slot)
    requires Indexed(cs, w, limit) && c in cs && key !in cs[c].keys && j in w
    ensures var cs' := cs[c := cs[c].(keys := cs[c].keys[key := Node(limit, c)])];
            ListOk(cs', j, w[j], limit + 1)
    ensures forall i :: 0 <= i < |w[j]| && j == Slot(cs[c].db, key) ==> w[j][i].client != c
  {
    assert ListOk(cs, j, w[j], limit);
  }

  lemma AppendOk(cs: Clients, k: Slot, l: seq<Node>, n: Node, limit: nat, c: nat)
    requires l == [] || ListOk(cs, k, l, limit + 1)
    requires Remembered(cs, k, n) && n == Node(limit, c) && forall i :: 0 <= i < |l| ==> l[i].client != c
    ensures ListOk(cs, k, l + [n], limit + 1)
  {}

  function Forget(cs: Clients, c: nat, key: Key): (cs': Clients)
    requires c in cs
  {
    cs[c := cs[c].(keys := cs[c].keys - {key})]
  }

  lemma UnlinkKeeps(cs: Clients, w: Waiting, limit: nat, c: nat, key: Key)
    requires Indexed(cs, w, limit) && c in cs && key in cs[c].keys
    ensures var k := Slot(cs[c].db, key);
            && k in w && Once(w[k]) && cs[c].keys[key] in w[k] && cs[c].keys[key].client == c
            && Indexed(Forget(cs, c, key), With(w, k, Drop(w[k], c)), limit)
  {
    var k := Slot(cs[c].db, key);
    assert cs[c].keys[key] in List(w, k);
    assert ListOk(cs, k, w[k], limit);
    var cs', w' := Forget(cs, c, key), With(w, k, Drop(w[k], c));
    forall j | j in w' ensures ListOk(cs', j, w'[j], limit) {
      assert ListOk(cs, j, w[j], limit);
      if j == k { DropOk(cs, k, limit, c, w[k]); } else { OtherOk(cs, c, key, j, limit, w[j]); }
    }
    forall d, e | d in cs' && e in cs'[d].keys
      ensures cs'[d].keys[e] in List(w', Slot(cs'[d].db, e)) && cs'[d].keys[e].client == d
    {
      ForgetOther(cs, c, key, d, e);
      var n := cs[d].keys[e];
      assert n in List(w, Slot(cs[d].db, e)) && n.client == d;
      DropMembers(w[k], c, n);
    }
  }

  lemma ForgetOther(cs: Clients, c: nat, key: Key, d: nat, e: Key)
    requires c in cs && d in cs && e in Forget(cs, c, key)[d].keys
    ensures e in cs[d].keys && Forget(cs, c, key)[d].keys[e] == cs[d].keys[e]
    ensures Forget(cs, c, key)[d].db == cs[d].db && !(d == c && e == key)
  {}

  lemma StillRemembered(cs: Clients, c: nat, key: Key, j: Slot, n: Node)
    requires c in cs && Remembered(cs, j, n) && !(n.client == c && j.key == key)
    ensures Remembered(Forget(cs, c, key), j, n)
  {}

  lemma OtherOk(cs: Clients, c: nat, key: Key, j: Slot, limit: nat, l: seq<Node>)
    requires c in cs && ListOk(cs, j, l, limit) && j != Slot(cs[c].db, key)
    ensures ListOk(Forget(cs, c, key), j, l, limit)
  {
    hide Remembered, Forget;
    forall i | 0 <= i < |l| ensures Remembered(Forget(cs, c, key), j, l[i]) {
      assert Remembered(cs, j, l[i]);
      NotMine(cs, c, key, j, l[i]);
      StillRemembered(cs, c, key, j, l[i]);
    }
  }

  lemma NotMine(cs: Clients, c: nat, key: Key, j: Slot, n: Node)
    requires c in cs && Remembered(cs, j, n) && j != Slot(cs[c].db, key)
    ensures !(n.client == c && j.key == key)
  {}

  lemma DropOk(cs: Clients, k: Slot, limit: nat, c: nat, l: seq<Node>)
    requires c in cs && ListOk(cs, k, l, limit) && Drop(l, c) != []
    ensures ListOk(Forget(cs, c, k.key), k, Drop(l, c), limit)
  {
    hide Remembered, Forget, Drop, Once;
    var r := Drop(l, c);
    DropOnce(l, c);
    forall i | 0 <= i < |r| ensures Remembered(Forget(cs, c, k.key), k, r[i]) && r[i].id < limit {
      DropMembers(l, c, r[i]);
      assert r[i] in r;
      StillRemembered(cs, c, k.key, k, r[i]);
    }
  }

  // ----- Who asked to be woken when the key goes away -----

  function Count(l: seq<Node>, wants: set<nat>): (n: nat) {
    if l == [] then 0 else (if l[0].client in wants then 1 else 0) + Count(l[1..], wants)
  }

  /** The reference counts: how many waiters of each key asked for it, for keys with at least one. */
  function Counts(w: Waiting, wants: set<nat>): (m: map<Slot, nat>) {
    map k | k in w && Count(w[k], wants) > 0 :: Count(w[k], wants)
  }

  lemma {:induction false} CountAppend(l: seq<Node>, wants: set<nat>, n: Node)
    ensures Count(l + [n], wants) == Count(l, wants) + (if n.client in wants then 1 else 0)
  {
    if l == [] {
      assert l + [n] == [n];
    } else {
      assert (l + [n])[1..] == l[1..] + [n];
      CountAppend(l[1..], wants, n);
    }
  }

  lemma {:induction false} CountDrop(l: seq<Node>, wants: set<nat>, n: Node)
    requires Once(l) && n in l
    ensures Count(Drop(l, n.client), wants) == Count(l, wants) - (if n.client in wants then 1 else 0)
  {
    if l[0] == n {
      DropNothing(l[1..], n.client);
      assert Drop(l, n.client) == l[1..];
    } else {
      assert n in l[1..];
      CountDrop(l[1..], wants, n);
      assert l[0].client != n.client;
      assert ([l[0]] + Drop(l[1..], n.client))[1..] == Drop(l[1..], n.client);
    }
  }

  lemma {:induction false} CountSame(l: seq<Node>, a: set<nat>, b: set<nat>)
    requires forall i :: 0 <= i < |l| ==> (l[i].client in a <==> l[i].client in b)
    ensures Count(l, a) == Count(l, b)
  {
    if l != [] { CountSame(l[1..], a, b); }
  }

  lemma CountsLink(w: Waiting, wants: set<nat>, k: Slot, n: Node)
    ensures var m := Counts(w, wants);
            Counts(w[k := List(w, k) + [n]], wants)
            == if n.client in wants then m[k := (if k in m then m[k] else 0) + 1] else m
  {
    CountAppend(List(w, k), wants, n);
  }

  lemma CountsUnlink(w: Waiting, wants: set<nat>, k: Slot, n: Node)
    requires k in w && Once(w[k]) && n in w[k]
    ensures var m, l := Counts(w, wants), Drop(w[k], n.client);
            && (l != [] && n.client in wants ==> k in m && m[k] > 0)
            && Counts(With(w, k, l), wants)
               == if l == [] then m - {k}
                  else if n.client in wants then (if m[k] == 1 then m - {k} else m[k := m[k] - 1])
                  else m
  {
    hide Drop, Once;
    CountDrop(w[k], wants, n);
  }

  // ----- Removing a client from all its lists -----

  /** The waiting lists with one client removed from them. */
  function Without(w: Waiting, c: nat): (w': Waiting) {
    map k | k in w && Drop(w[k], c) != [] :: Drop(w[k], c)
  }

  /** The same, for some of the keys only. */
  function Partly(w: Waiting, c: nat, db: nat, done: set<Key>): (w': Waiting) {
    map k | k in w && (k.db == db && k.key in done ==> Drop(w[k], c) != [])
      :: if k.db == db && k.key in done then Drop(w[k], c) else w[k]
  }

  lemma PartlyStep(w: Waiting, c: nat, db: nat, done: set<Key>, key: Key)
    requires Slot(db, key) in w && key !in done
    ensures var k := Slot(db, key);
            k in Partly(w, c, db, done) && Partly(w, c, db, done)[k] == w[k]
            && With(Partly(w, c, db, done), k, Drop(w[k], c)) == Partly(w, c, db, done + {key})
  {
    hide Drop;
  }

  lemma PartlyNone(w: Waiting, c: nat, db: nat)
    ensures Partly(w, c, db, {}) == w
  {
    hide Drop;
  }

  lemma PartlyAll(cs: Clients, w: Waiting, limit: nat, c: nat)
    requires Indexed(cs, w, limit) && c in cs
    ensures Partly(w, c, cs[c].db, cs[c].keys.Keys) == Without(w, c)
  {
    hide Drop;
    forall k | k in w && !(k.db == cs[c].db && k.key in cs[c].keys) ensures Drop(w[k], c) == w[k] && w[k] != [] {
      assert ListOk(cs, k, w[k], limit);
      DropNothing(w[k], c);
    }
  }

  /** The clients, with one of them remembering only some of its keys. */
  function Restrict(cs: Clients, c: nat, left: set<Key>): (cs': Clients)
    requires c in cs
  {
    cs[c := cs[c].(keys := map key | key in cs[c].keys && key in left :: cs[c].keys[key])]
  }

  lemma RestrictForget(cs: Clients, c: nat, left: set<Key>, key: Key)
    requires c in cs
    ensures Forget(Restrict(cs, c, left), c, key) == Restrict(cs, c, left - {key})
    ensures Restrict(Forget(cs, c, key), c, left - {key}) == Restrict(cs, c, left - {key})
  {
    var a, b := Restrict(cs, c, left - {key}), Forget(Restrict(cs, c, left), c, key);
    var d := Restrict(Forget(cs, c, key), c, left - {key});
    assert b[c].keys == a[c].keys && d[c].keys == a[c].keys;
    assert b[c] == a[c] && d[c] == a[c];
  }

  lemma RestrictEnds(cs: Clients, c: nat)
    requires c in cs
    ensures Restrict(cs, c, cs[c].keys.Keys) == cs
    ensures Restrict(cs, c, {}) == cs[c := cs[c].(keys := map[])]
  {
    assert Restrict(cs, c, cs[c].keys.Keys)[c].keys == cs[c].keys;
    assert Restrict(cs, c, cs[c].keys.Keys)[c] == cs[c];
    assert Restrict(cs, c, {})[c].keys == map[];
  }

  function Wants(cs: Clients): (s: set<nat>) { set c | c in cs && cs[c].nokey }

  /** A client without keys is in no list, so what it asks for does not matter. */
  lemma WantsIrrelevant(cs: Clients, w: Waiting, limit: nat, a: set<nat>, b: set<nat>, c: nat)
    requires Indexed(cs, w, limit) && c in cs && cs[c].keys == map[] && forall d :: d != c ==> (d in a <==> d in b)
    ensures Counts(w, a) == Counts(w, b)
  {
    forall k | k in w ensures Count(w[k], a) == Count(w[k], b) {
      assert ListOk(cs, k, w[k], limit);
      CountSame(w[k], a, b);
    }
  }

  /** The index depends on nothing but the databases and key tables of the clients. */
  lemma IndexedSame(cs: Clients, cs': Clients, w: Waiting, limit: nat)
    requires Indexed(cs, w, limit) && cs.Keys == cs'.Keys
    requires forall c :: c in cs ==> cs'[c].db == cs[c].db && cs'[c].keys == cs[c].keys
    ensures Indexed(cs', w, limit)
  {
    forall k | k in w ensures ListOk(cs', k, w[k], limit) {
      assert ListOk(cs, k, w[k], limit);
    }
  }

  // ----- Counters -----

  function BlockedOn(cs: Clients, kind: Kind): (s: set<nat>) { set c | c in cs && cs[c].blocked && cs[c].kind == kind }

  function BlockedRegular(cs: Clients): (s: set<nat>) { set c | c in cs && cs[c].blocked && !cs[c].ofModule }

  ghost predicate Tallied(cs: Clients, byKind: map<Kind, int>, total: int) {
    && (forall kind :: kind in byKind && byKind[kind] == |BlockedOn(cs, kind)|)
    && total == |BlockedRegular(cs)|
  }

  /** One client becomes blocked. */
  lemma CardOn(cs: Clients, c: nat, x: Client, kind: Kind)
    requires c in cs && !cs[c].blocked && x.blocked
    ensures |BlockedOn(cs[c := x], kind)| == |BlockedOn(cs, kind)| + (if kind == x.kind then 1 else 0)
  {
    var a, b := BlockedOn(cs, kind), BlockedOn(cs[c := x], kind);
    if kind == x.kind { assert b == a + {c}; } else { assert b == a; }
  }

  lemma CardRegular(cs: Clients, c: nat, x: Client)
    requires c in cs && !cs[c].blocked && x.blocked && x.ofModule == cs[c].ofModule
    ensures |BlockedRegular(cs[c := x])| == |BlockedRegular(cs)| + (if x.ofModule then 0 else 1)
  {
    var a, b := BlockedRegular(cs), BlockedRegular(cs[c := x]);
    if x.ofModule { assert b == a; } else { assert b == a + {c}; }
  }

  lemma CardChange(cs: Clients, c: nat, x: Client, kind: Kind)
    requires c in cs && cs[c].blocked != x.blocked && x.ofModule == cs[c].ofModule
    ensures x.blocked ==> |BlockedOn(cs[c := x], kind)| == |BlockedOn(cs, kind)| + (if kind == x.kind then 1 else 0)
    ensures !x.blocked ==> |BlockedOn(cs[c := x], kind)| == |BlockedOn(cs, kind)| - (if kind == cs[c].kind then 1 else 0)
    ensures var d := if x.ofModule then 0 else if x.blocked then 1 else -1;
            |BlockedRegular(cs[c := x])| == |BlockedRegular(cs)| + d
  {
    hide BlockedOn, BlockedRegular;
    var cs' := cs[c := x];
    if x.blocked {
      CardOn(cs, c, x, kind);
      CardRegular(cs, c, x);
    } else {
      assert cs'[c := cs[c]] == cs;
      CardOn(cs', c, cs[c], kind);
      CardRegular(cs', c, cs[c]);
    }
  }

  lemma TallyBlock(cs: Clients, byKind: map<Kind, int>, total: int, c: nat, x: Client)
    requires Tallied(cs, byKind, total) && c in cs && !cs[c].blocked && x.blocked && x.ofModule == cs[c].ofModule
    ensures Tallied(cs[c := x], byKind[x.kind := byKind[x.kind] + 1], if x.ofModule then total else total + 1)
  {
    hide BlockedOn, BlockedRegular;
    forall kind ensures |BlockedOn(cs[c := x], kind)| == |BlockedOn(cs, kind)| + if kind == x.kind then 1 else 0 {
      CardChange(cs, c, x, kind);
    }
    CardChange(cs, c, x, x.kind);
  }

  lemma TallyUnblock(cs: Clients, byKind: map<Kind, int>, total: int, c: nat, x: Client)
    requires Tallied(cs, byKind, total) && c in cs && cs[c].blocked && !x.blocked && x.ofModule == cs[c].ofModule
    ensures var kind := cs[c].kind;
            Tallied(cs[c := x], byKind[kind := byKind[kind] - 1], if cs[c].ofModule then total else total - 1)
  {
    hide BlockedOn, BlockedRegular;
    forall kind ensures |BlockedOn(cs[c := x], kind)| == |BlockedOn(cs, kind)| - if kind == cs[c].kind then 1 else 0 {
      CardChange(cs, c, x, kind);
    }
    CardChange(cs, c, x, x.kind);
  }

  lemma TallySame(cs: Clients, byKind: map<Kind, int>, total: int, c: nat, x: Client)
    requires Tallied(cs, byKind, total) && c in cs
    requires x.blocked == cs[c].blocked && x.kind == cs[c].kind && x.ofModule == cs[c].ofModule
    ensures Tallied(cs[c := x], byKind, total)
  {
    var cs' := cs[c := x];
    forall kind ensures BlockedOn(cs', kind) == BlockedOn(cs, kind) {}
    assert BlockedRegular(cs') == BlockedRegular(cs);
  }
}
