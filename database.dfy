/**
 * The shortcut store: a shared map from slug to entry behind a reader/writer
 * lock, with the four operations request handlers use.
 *
 * The lock is modelled by `poisoned`: Rust's `RwLock` refuses both read and
 * write guards once a thread has panicked while holding the write guard, and
 * every operation here has a branch for that refusal.
 */
module ShortcutDatabase {
  import opened Wrappers

  /** `ShortcutEntry`: one shortcut; timestamps stay decimal text end to end. */
  datatype Entry = Entry(slug: string, url: string, status: string, since: string, until: string)

  /** `order` lists every key of `m` exactly once. */
  ghost predicate EnumeratesKeys(order: seq<string>, m: map<string, Entry>) {
    && (forall i :: 0 <= i < |order| ==> order[i] in m)
    && (forall i, j :: 0 <= i < j < |order| ==> order[i] != order[j])
    && (forall k :: k in m ==> k in order)
  }

  /** Values read in a key order that lists every key once: each stored value is there. */
  lemma ValuesInKeyOrder(all: seq<Entry>, order: seq<string>, m: map<string, Entry>)
    requires EnumeratesKeys(order, m)
    requires |all| == |order| && forall i :: 0 <= i < |order| ==> all[i] == m[order[i]]
    ensures forall e :: e in all <==> e in m.Values
  {
    forall e | e in m.Values ensures e in all {
      var k :| k in m && m[k] == e;
      var i :| 0 <= i < |order| && order[i] == k;
      assert all[i] == e;
    }
  }

  /** `Database`: the map and the state of its lock; clones share one instance. */
  class Database {
    var data: map<string, Entry>
    var poisoned: bool

    /** `Database::new`: wraps the given map in a fresh, healthy lock. */
    constructor (data: map<string, Entry>)
      ensures this.data == data && !poisoned
    {
      this.data := data;
      poisoned := false;
    }

    /** `read`: a copy of the entry stored under `slug`; nothing when absent or when the lock is poisoned. */
    method Read(slug: string) returns (r: Option<Entry>)
      ensures poisoned ==> r == None
      ensures !poisoned ==> (r.Some? <==> slug in data)
      ensures r.Some? ==> slug in data && r.value == data[slug]
    {
      if poisoned {
        r := None;
      } else if slug in data {
        var entry := data[slug];
        r := Some(Entry(entry.slug, entry.url, entry.status, entry.since, entry.until));
      } else {
        r := None;
      }
    }

    /**
     * `read_all`: every stored entry once, in an unspecified order; empty when
     * the lock is poisoned. The ghost `order` is the key order of the read.
     */
    method ReadAll() returns (all: seq<Entry>, ghost order: seq<string>)
      ensures poisoned ==> all == []
      ensures !poisoned ==> EnumeratesKeys(order, data) && |order| == |all|
      ensures !poisoned ==> forall i :: 0 <= i < |order| ==> all[i] == data[order[i]]
      ensures !poisoned ==> |all| == |data|
      ensures !poisoned ==> forall e :: e in all <==> e in data.Values
    {
      all, order := [], [];
      if !poisoned {
        var remaining := data.Keys;
        while remaining != {}
          invariant remaining <= data.Keys
          invariant |order| == |all| && |order| + |remaining| == |data|
          invariant forall i :: 0 <= i < |order| ==> order[i] in data && order[i] !in remaining
          invariant forall i :: 0 <= i < |order| ==> all[i] == data[order[i]]
          invariant forall i, j :: 0 <= i < j < |order| ==> order[i] != order[j]
          invariant forall k :: k in data ==> k in remaining || k in order
          decreases |remaining|
        {
          var k :| k in remaining;
          all := all + [data[k]];
          order := order + [k];
          remaining := remaining - {k};
        }
        ValuesInKeyOrder(all, order, data);
      }
    }

    /** `upsert`: last write wins under `slug`; nothing else changes. False, and no change, when the lock is poisoned. */
    method Upsert(slug: string, value: Entry) returns (ok: bool)
      modifies this
      ensures poisoned == old(poisoned)
      ensures ok == !poisoned
      ensures data == if ok then old(data)[slug := value] else old(data)
    {
      if poisoned {
        ok := false;
      } else {
        data := data[slug := value];
        ok := true;
      }
    }

    /** `delete`: removes `slug`, reporting whether it was present; false, and no change, when the lock is poisoned. */
    method Delete(slug: string) returns (ok: bool)
      modifies this
      ensures poisoned == old(poisoned)
      ensures ok <==> !poisoned && slug in old(data)
      ensures data == if poisoned then old(data) else old(data) - {slug}
    {
      if poisoned {
        ok := false;
      } else {
        ok := slug in data;
        data := data - {slug};
      }
    }
  }

  /** One successful write as the store applies it. */
  datatype Write = Put(slug: string, value: Entry) | Remove(slug: string)

  /** The map after one successful write: what `Upsert` and `Delete` do to `data`. */
  function Apply(m: map<string, Entry>, w: Write): (r: map<string, Entry>) {
    match w
    case Put(slug, value) => m[slug := value]
    case Remove(slug) => m - {slug}
  }

  /** The map after a sequence of successful writes, in order. */
  function Replay(m: map<string, Entry>, ws: seq<Write>): (r: map<string, Entry>)
    decreases |ws|
  {
    if ws == [] then m else Apply(Replay(m, ws[..|ws| - 1]), ws[|ws| - 1])
  }

  /** The last write in `ws` that names `slug`, if any. */
  function LastWrite(ws: seq<Write>, slug: string): (r: Option<Write>)
    ensures r.Some? ==> r.value in ws && r.value.slug == slug
    decreases |ws|
  {
    if ws == [] then None
    else if ws[|ws| - 1].slug == slug then Some(ws[|ws| - 1])
    else LastWrite(ws[..|ws| - 1], slug)
  }

  /**
   * Last write wins, per key: after any sequence of writes a key holds the
   * value of its last `Put`, is absent after a last `Remove`, and is as
   * before when no write names it.
   */
  lemma {:induction false} ReplayLastWriteWins(m: map<string, Entry>, ws: seq<Write>, slug: string)
    ensures match LastWrite(ws, slug)
      case None => (slug in Replay(m, ws) <==> slug in m) && (slug in m ==> Replay(m, ws)[slug] == m[slug])
      case Some(Put(_, value)) => slug in Replay(m, ws) && Replay(m, ws)[slug] == value
      case Some(Remove(_)) => slug !in Replay(m, ws)
    decreases |ws|
  {
    if ws != [] {
      ReplayLastWriteWins(m, ws[..|ws| - 1], slug);
    }
  }

  /**
   * A run of writes through the store's own `Upsert` and `Delete`: on a
   * healthy lock the map ends as `Replay` of the writes, and each call reports
   * true for a put and, for a delete, whether the slug was present just then.
   */
  method RunWrites(db: Database, ws: seq<Write>) returns (results: seq<bool>)
    modifies db
    ensures db.poisoned == old(db.poisoned)
    ensures db.data == if db.poisoned then old(db.data) else Replay(old(db.data), ws)
    ensures |results| == |ws|
    ensures forall i :: 0 <= i < |ws| ==>
      results[i] == (!db.poisoned && (ws[i].Put? || ws[i].slug in Replay(old(db.data), ws[..i])))
  {
    results := [];
    for n := 0 to |ws|
      invariant db.poisoned == old(db.poisoned)
      invariant db.data == if db.poisoned then old(db.data) else Replay(old(db.data), ws[..n])
      invariant |results| == n
      invariant forall i :: 0 <= i < n ==>
        results[i] == (!db.poisoned && (ws[i].Put? || ws[i].slug in Replay(old(db.data), ws[..i])))
    {
      assert ws[..n + 1][..n] == ws[..n];
      var ok;
      match ws[n] {
        case Put(slug, value) =>
          ok := db.Upsert(slug, value);
        case Remove(slug) =>
          ok := db.Delete(slug);
      }
      results := results + [ok];
    }
    assert ws[..|ws|] == ws;
  }

  /**
   * Scenario of the request test in src/tests.rs:89-132: a put of `gh` for
   * `https://github.com`, a read, a delete of a missing slug, a delete of
   * `gh`, and a read.
   */
  method ScenarioPutDeleteRead() {
    var db := new Database(map[]);
    var entry := Entry("gh", "https://github.com", "trusted", "0", "253370764861000");
    var put := db.Upsert("gh", entry);
    assert put;
    var found := db.Read("gh");
    assert found == Some(entry);
    var missing := db.Delete("missing");
    assert !missing;
    var removed := db.Delete("gh");
    assert removed;
    var gone := db.Read("gh");
    assert gone == None;
  }
}
