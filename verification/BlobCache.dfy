/** The cache of inline blobs: a bounded store of blobs sent ahead of their request, handed
    out once each and dropped with their transaction. */
module BlobCache {
  import opened Bytes
  import opened Collections

  type Blobs = map<int, seq<byte>>
  type Store = map<int, Blobs>

  // --- the bytes held -----------------------------------------------------

  /** The bytes of some of the blobs of one transaction. */
  ghost function BytesOf(blobs: Blobs, ids: set<int>): nat
    requires ids <= blobs.Keys
  {
    if |ids| == 0 then 0
    else
      var id := Pick(ids);
      |blobs[id]| + BytesOf(blobs, ids - {id})
  }

  /** The sum does not depend on the order the blobs are taken in. */
  lemma {:induction false} BytesRemove(blobs: Blobs, ids: set<int>, id: int)
    requires ids <= blobs.Keys && id in ids
    ensures BytesOf(blobs, ids) == |blobs[id]| + BytesOf(blobs, ids - {id})
  {
    var j := Pick(ids);
    if j != id {
      BytesRemove(blobs, ids - {j}, id);
      BytesRemove(blobs, ids - {id}, j);
      assert ids - {j} - {id} == ids - {id} - {j};
    }
  }

  lemma {:induction false} BytesSame(a: Blobs, b: Blobs, ids: set<int>)
    requires ids <= a.Keys && ids <= b.Keys && forall id | id in ids :: a[id] == b[id]
    ensures BytesOf(a, ids) == BytesOf(b, ids)
  {
    if |ids| > 0 {
      var j := Pick(ids);
      BytesRemove(a, ids, j);
      BytesRemove(b, ids, j);
      BytesSame(a, b, ids - {j});
    }
  }

  ghost function AllBytes(blobs: Blobs): nat {
    BytesOf(blobs, blobs.Keys)
  }

  lemma BytesPut(blobs: Blobs, id: int, data: seq<byte>)
    requires id !in blobs
    ensures AllBytes(blobs[id := data]) == AllBytes(blobs) + |data|
  {
    var more := blobs[id := data];
    BytesRemove(more, more.Keys, id);
    assert more.Keys - {id} == blobs.Keys;
    BytesSame(more, blobs, blobs.Keys);
  }

  lemma BytesTake(blobs: Blobs, id: int)
    requires id in blobs
    ensures AllBytes(blobs) == AllBytes(blobs - {id}) + |blobs[id]|
  {
    var less := blobs - {id};
    BytesRemove(blobs, blobs.Keys, id);
    assert blobs.Keys - {id} == less.Keys;
    BytesSame(less, blobs, less.Keys);
  }

  /** The bytes of some of the transactions of a store. */
  ghost function HeldBy(byTx: Store, txs: set<int>): nat
    requires txs <= byTx.Keys
  {
    if |txs| == 0 then 0
    else
      var tx := Pick(txs);
      AllBytes(byTx[tx]) + HeldBy(byTx, txs - {tx})
  }

  lemma {:induction false} HeldRemove(byTx: Store, txs: set<int>, tx: int)
    requires txs <= byTx.Keys && tx in txs
    ensures HeldBy(byTx, txs) == AllBytes(byTx[tx]) + HeldBy(byTx, txs - {tx})
  {
    hide AllBytes;
    var j := Pick(txs);
    if j != tx {
      HeldRemove(byTx, txs - {j}, tx);
      HeldRemove(byTx, txs - {tx}, j);
      assert txs - {j} - {tx} == txs - {tx} - {j};
    }
  }

  lemma {:induction false} HeldSame(a: Store, b: Store, txs: set<int>)
    requires txs <= a.Keys && txs <= b.Keys && forall tx | tx in txs :: a[tx] == b[tx]
    ensures HeldBy(a, txs) == HeldBy(b, txs)
  {
    hide AllBytes;
    if |txs| > 0 {
      var j := Pick(txs);
      HeldRemove(a, txs, j);
      HeldRemove(b, txs, j);
      HeldSame(a, b, txs - {j});
    }
  }

  /** All bytes of a store, over all transactions. */
  ghost function Held(byTx: Store): nat {
    HeldBy(byTx, byTx.Keys)
  }

  function BlobsOf(byTx: Store, tx: int): Blobs {
    if tx in byTx then byTx[tx] else map[]
  }

  lemma NoBytes()
    ensures AllBytes(map[]) == 0 && Held(map[]) == 0
  {
  }

  lemma HeldWithout(byTx: Store, tx: int)
    ensures Held(byTx) == Held(byTx - {tx}) + AllBytes(BlobsOf(byTx, tx))
  {
    NoBytes();
    hide Held, AllBytes;
    if tx in byTx {
      HeldWithoutKey(byTx, tx);
    } else {
      assert byTx - {tx} == byTx;
    }
  }

  lemma HeldWithoutKey(byTx: Store, tx: int)
    requires tx in byTx
    ensures Held(byTx) == Held(byTx - {tx}) + AllBytes(byTx[tx])
  {
    hide AllBytes, HeldBy;
    var less := byTx - {tx};
    HeldRemove(byTx, byTx.Keys, tx);
    assert byTx.Keys - {tx} == less.Keys;
    HeldSame(less, byTx, less.Keys);
  }

  lemma HeldUpdate(byTx: Store, tx: int, blobs: Blobs)
    ensures Held(byTx[tx := blobs]) == Held(byTx) - AllBytes(BlobsOf(byTx, tx)) + AllBytes(blobs)
  {
    HeldWithout(byTx, tx);
    HeldWithout(byTx[tx := blobs], tx);
    assert byTx[tx := blobs] - {tx} == byTx - {tx};
  }

  // --- the history of a cache ---------------------------------------------

  /** What happened to a cache: a blob was accepted, one was served, a transaction's blobs
      were dropped, all blobs were dropped. */
  datatype Event =
    | Accepted(tx: int, id: int, data: seq<byte>)
    | Served(tx: int, id: int, data: seq<byte>)
    | Dropped(tx: int)
    | DroppedAll

  /** What a plain map would hold for a key after an event, having held `before`. */
  function After(before: Option<seq<byte>>, event: Event, tx: int, id: int): Option<seq<byte>> {
    match event
    case Accepted(t, i, data) => if t == tx && i == id then Some(data) else before
    case Served(t, i, _) => if t == tx && i == id then None else before
    case Dropped(t) => if t == tx then None else before
    case DroppedAll => None
  }

  function Live(history: seq<Event>, tx: int, id: int): Option<seq<byte>> {
    if history == [] then None
    else After(Live(history[..|history| - 1], tx, id), history[|history| - 1], tx, id)
  }

  /** Only absent keys are accepted, and only live blobs are served, with their own data. */
  predicate Allowed(history: seq<Event>, event: Event) {
    match event
    case Accepted(tx, id, _) => Live(history, tx, id) == None
    case Served(tx, id, data) => Live(history, tx, id) == Some(data)
    case Dropped(_) => true
    case DroppedAll => true
  }

  predicate Legal(history: seq<Event>) {
    history == [] || (Legal(history[..|history| - 1]) && Allowed(history[..|history| - 1], history[|history| - 1]))
  }

  lemma Next(history: seq<Event>, event: Event)
    requires Legal(history) && Allowed(history, event)
    ensures Legal(history + [event])
    ensures forall tx, id :: Live(history + [event], tx, id) == After(Live(history, tx, id), event, tx, id)
  {
    assert (history + [event])[..|history|] == history;
  }

  /** An event after which a key is no longer live. */
  predicate Ends(event: Event, tx: int, id: int) {
    match event
    case Accepted(_, _, _) => false
    case Served(t, i, _) => t == tx && i == id
    case Dropped(t) => t == tx
    case DroppedAll => true
  }

  predicate NotEnded(history: seq<Event>, from: int, tx: int, id: int) {
    forall j | from < j < |history| && 0 <= j :: !Ends(history[j], tx, id)
  }

  /** A key is live exactly when it was accepted and nothing ended it since. */
  lemma {:induction false} LiveSince(history: seq<Event>, tx: int, id: int)
    requires Legal(history)
    ensures forall data :: Live(history, tx, id) == Some(data) <==>
              exists i :: 0 <= i < |history| && history[i] == Accepted(tx, id, data) && NotEnded(history, i, tx, id)
  {
    if history != [] {
      var n := |history| - 1;
      var front, last := history[..n], history[n];
      LiveSince(front, tx, id);
      forall data
        ensures Live(history, tx, id) == Some(data) <==>
                exists i :: 0 <= i < |history| && history[i] == Accepted(tx, id, data) && NotEnded(history, i, tx, id)
      {
        LiveSinceStep(history, tx, id, data);
      }
    }
  }

  lemma LiveSinceStep(history: seq<Event>, tx: int, id: int, data: seq<byte>)
    requires history != [] && Legal(history)
    requires var front := history[..|history| - 1];
             forall d :: Live(front, tx, id) == Some(d) <==>
               exists i :: 0 <= i < |front| && front[i] == Accepted(tx, id, d) && NotEnded(front, i, tx, id)
    ensures Live(history, tx, id) == Some(data) <==>
            exists i :: 0 <= i < |history| && history[i] == Accepted(tx, id, data) && NotEnded(history, i, tx, id)
  {
    var n := |history| - 1;
    var front, last := history[..n], history[n];
    if Live(history, tx, id) == Some(data) {
      if last == Accepted(tx, id, data) {
        assert NotEnded(history, n, tx, id);
      } else {
        assert Live(front, tx, id) == Some(data);
        var i :| 0 <= i < n && front[i] == Accepted(tx, id, data) && NotEnded(front, i, tx, id);
        assert history[i] == Accepted(tx, id, data);
        assert forall j | i < j < n :: history[j] == front[j];
        assert NotEnded(history, i, tx, id);
      }
    }
    if i :| 0 <= i < |history| && history[i] == Accepted(tx, id, data) && NotEnded(history, i, tx, id) {
      if i < n {
        assert front[i] == Accepted(tx, id, data);
        assert forall j | i < j < n :: history[j] == front[j];
        assert NotEnded(front, i, tx, id);
        assert Live(front, tx, id) == Some(data);
        assert !Ends(last, tx, id);
      }
    }
  }

  lemma {:induction false} LegalPrefix(history: seq<Event>, n: nat)
    requires Legal(history) && n <= |history|
    ensures Legal(history[..n])
  {
    if n == |history| {
      assert history[..n] == history;
    } else {
      var front := history[..|history| - 1];
      LegalPrefix(front, n);
      assert front[..n] == history[..n];
    }
  }

  /** Every blob served was accepted before with the same bytes, and between the two it was
      neither served already nor dropped with its transaction. */
  lemma ServedOnce(history: seq<Event>, at: nat)
    requires Legal(history) && at < |history| && history[at].Served?
    ensures var served := history[at];
            exists i :: 0 <= i < at && history[i] == Accepted(served.tx, served.id, served.data)
                        && forall j | i < j < at :: !Ends(history[j], served.tx, served.id)
  {
    var served := history[at];
    LegalPrefix(history, at + 1);
    var before := history[..at];
    assert history[..at + 1][..at] == before;
    LegalPrefix(history, at);
    LiveSince(before, served.tx, served.id);
    assert Live(before, served.tx, served.id) == Some(served.data);
    var i :| 0 <= i < at && before[i] == Accepted(served.tx, served.id, served.data)
             && NotEnded(before, i, served.tx, served.id);
    assert history[i] == before[i];
    assert forall j | i < j < at :: history[j] == before[j];
  }

  // --- the state of a cache -----------------------------------------------

  function Lookup(byTx: Store, tx: int, id: int): Option<seq<byte>> {
    if tx in byTx && id in byTx[tx] then Some(byTx[tx][id]) else None
  }

  ghost predicate Same(byTx: Store, history: seq<Event>) {
    forall tx, id :: Lookup(byTx, tx, id) == Live(history, tx, id)
  }

  predicate NoneEmpty(byTx: Store) {
    forall tx | tx in byTx :: byTx[tx] != map[]
  }

  /** The size is exactly the bytes held and within the limit, no transaction holds an empty
      map, and the blobs are those of the plain map the history stands for. */
  ghost predicate Consistent(maxSize: int, size: int, byTx: Store, history: seq<Event>) {
    && size == Held(byTx)
    && (if maxSize > 0 then size <= maxSize else byTx == map[])
    && NoneEmpty(byTx)
    && Legal(history)
    && Same(byTx, history)
  }

  lemma Empty(maxSize: int, history: seq<Event>)
    requires history == [] || (Legal(history[..|history| - 1]) && history[|history| - 1] == DroppedAll)
    ensures Consistent(maxSize, 0, map[], history)
  {
    NoBytes();
  }

  function With(byTx: Store, tx: int, id: int, data: seq<byte>): Store {
    byTx[tx := BlobsOf(byTx, tx)[id := data]]
  }

  /** The store without one blob, and without its transaction when that was the last. */
  function Without(byTx: Store, tx: int, id: int): Store {
    var blobs := BlobsOf(byTx, tx) - {id};
    if |blobs| == 0 then byTx - {tx} else byTx[tx := blobs]
  }

  lemma LookupWith(byTx: Store, tx: int, id: int, data: seq<byte>, t: int, i: int)
    ensures Lookup(With(byTx, tx, id, data), t, i) == After(Lookup(byTx, t, i), Accepted(tx, id, data), t, i)
  {
  }

  lemma LookupWithout(byTx: Store, tx: int, id: int, data: seq<byte>, t: int, i: int)
    ensures Lookup(Without(byTx, tx, id), t, i) == After(Lookup(byTx, t, i), Served(tx, id, data), t, i)
  {
    var blobs := BlobsOf(byTx, tx) - {id};
    if t == tx && i != id && i in BlobsOf(byTx, tx) {
      assert i in blobs;
    }
  }

  lemma HeldWith(byTx: Store, tx: int, id: int, data: seq<byte>)
    requires id !in BlobsOf(byTx, tx)
    ensures Held(With(byTx, tx, id, data)) == Held(byTx) + |data|
  {
    hide Held, AllBytes;
    BytesPut(BlobsOf(byTx, tx), id, data);
    HeldUpdate(byTx, tx, BlobsOf(byTx, tx)[id := data]);
  }

  lemma HeldLess(byTx: Store, tx: int, id: int)
    requires id in BlobsOf(byTx, tx)
    ensures Held(Without(byTx, tx, id)) == Held(byTx) - |BlobsOf(byTx, tx)[id]|
  {
    var blobs := BlobsOf(byTx, tx) - {id};
    NoBytes();
    hide Held, AllBytes;
    BytesTake(BlobsOf(byTx, tx), id);
    HeldUpdate(byTx, tx, blobs);
    HeldWithout(byTx, tx);
    if |blobs| == 0 {
      assert blobs == map[];
    }
  }

  lemma WithKeepsNoneEmpty(byTx: Store, tx: int, id: int, data: seq<byte>)
    requires NoneEmpty(byTx)
    ensures NoneEmpty(With(byTx, tx, id, data))
    ensures NoneEmpty(Without(byTx, tx, id))
    ensures NoneEmpty(byTx - {tx})
  {
    assert id in BlobsOf(byTx, tx)[id := data];
  }

  /** Accepting a blob that fits and whose key is free keeps a cache consistent. */
  lemma Accepts(maxSize: int, size: int, byTx: Store, history: seq<Event>, tx: int, id: int, data: seq<byte>)
    requires Consistent(maxSize, size, byTx, history) && 0 < maxSize && size + |data| <= maxSize
    requires id !in BlobsOf(byTx, tx)
    ensures Consistent(maxSize, size + |data|, With(byTx, tx, id, data), history + [Accepted(tx, id, data)])
  {
    assert Lookup(byTx, tx, id) == None;
    var event := Accepted(tx, id, data);
    assert Allowed(history, event);
    hide Held, BlobsOf, With, Lookup, Live, Legal, NoneEmpty, After, Allowed;
    HeldWith(byTx, tx, id, data);
    WithKeepsNoneEmpty(byTx, tx, id, data);
    Next(history, event);
    forall t, i
      ensures Lookup(With(byTx, tx, id, data), t, i) == Live(history + [event], t, i)
    {
      LookupWith(byTx, tx, id, data, t, i);
    }
  }

  /** Serving a held blob keeps a cache consistent, with the size not below zero. */
  lemma Serves(maxSize: int, size: int, byTx: Store, history: seq<Event>, tx: int, id: int)
    requires Consistent(maxSize, size, byTx, history) && id in BlobsOf(byTx, tx)
    ensures var data := BlobsOf(byTx, tx)[id];
            && Consistent(maxSize, size - |data|, Without(byTx, tx, id), history + [Served(tx, id, data)])
            && size - |data| >= 0
  {
    var data := BlobsOf(byTx, tx)[id];
    assert Lookup(byTx, tx, id) == Some(data);
    var event := Served(tx, id, data);
    assert Allowed(history, event);
    assert byTx != map[];
    hide Held, BlobsOf, Without, Lookup, Live, Legal, NoneEmpty, After, Allowed;
    HeldLess(byTx, tx, id);
    WithKeepsNoneEmpty(byTx, tx, id, data);
    Next(history, event);
    forall t, i
      ensures Lookup(Without(byTx, tx, id), t, i) == Live(history + [event], t, i)
    {
      LookupWithout(byTx, tx, id, data, t, i);
    }
  }

  /** Dropping a transaction keeps a cache consistent, with the size not below zero. */
  lemma Drops(maxSize: int, size: int, byTx: Store, history: seq<Event>, tx: int)
    requires Consistent(maxSize, size, byTx, history)
    ensures size - AllBytes(BlobsOf(byTx, tx)) >= 0
    ensures Consistent(maxSize, size - AllBytes(BlobsOf(byTx, tx)), byTx - {tx}, history + [Dropped(tx)])
    ensures tx !in byTx ==> byTx - {tx} == byTx && AllBytes(BlobsOf(byTx, tx)) == 0
  {
    hide Held, Live, Legal, NoneEmpty, AllBytes, Same;
    NothingDropped(byTx, tx);
    assert byTx == map[] ==> byTx - {tx} == map[];
    assert Allowed(history, Dropped(tx));
    HeldWithout(byTx, tx);
    WithKeepsNoneEmpty(byTx, tx, 0, []);
    Next(history, Dropped(tx));
    SameWithout(byTx, history, tx);
  }

  lemma NothingDropped(byTx: Store, tx: int)
    ensures tx !in byTx ==> byTx - {tx} == byTx && AllBytes(BlobsOf(byTx, tx)) == 0
  {
    NoBytes();
    hide AllBytes;
  }

  lemma SameWithout(byTx: Store, history: seq<Event>, tx: int)
    requires Legal(history) && Same(byTx, history)
    ensures Same(byTx - {tx}, history + [Dropped(tx)])
  {
    assert Allowed(history, Dropped(tx));
    hide Live, Legal;
    Next(history, Dropped(tx));
    forall t, i
      ensures Lookup(byTx - {tx}, t, i) == Live(history + [Dropped(tx)], t, i)
    {
      assert Lookup(byTx - {tx}, t, i) == After(Lookup(byTx, t, i), Dropped(tx), t, i);
    }
  }

  /** A key is live exactly when the store holds it. */
  lemma HeldIsLive(maxSize: int, size: int, byTx: Store, history: seq<Event>, tx: int, id: int)
    requires Consistent(maxSize, size, byTx, history)
    ensures Live(history, tx, id) == if id in BlobsOf(byTx, tx) then Some(BlobsOf(byTx, tx)[id]) else None
    ensures maxSize <= 0 ==> byTx == map[] && id !in BlobsOf(byTx, tx)
  {
    hide Live, Legal, Held;
    assert Lookup(byTx, tx, id) == Live(history, tx, id);
  }

  // --- the cache ----------------------------------------------------------

  class InlineBlobCache {
    const maxSize: int
    var size: int
    var byTx: Store
    ghost var history: seq<Event>

    ghost predicate Valid()
      reads this
    {
      Consistent(maxSize, size, byTx, history)
    }

    constructor (limit: int)
      ensures Valid()
      ensures maxSize == (if limit <= 0 then -1 else limit) && history == [] && byTx == map[]
    {
      maxSize := if limit <= 0 then -1 else limit;
      size := 0;
      byTx := map[];
      history := [];
      new;
      hide Consistent;
      Empty(maxSize, []);
    }

    /** Accepts a blob exactly when it fits and its key is free. */
    method Add(tx: int, id: int, data: seq<byte>) returns (added: bool)
      requires Valid()
      modifies this
      ensures Valid()
      ensures added <==> maxSize > 0 && old(size) + |data| <= maxSize && Live(old(history), tx, id) == None
      ensures history == old(history) + (if added then [Accepted(tx, id, data)] else [])
      ensures size == old(size) + (if added then |data| else 0)
    {
      HeldIsLive(maxSize, size, byTx, history, tx, id);
      hide Consistent, Live;
      if maxSize <= 0 {
        return false;
      }
      var dataLen := |data|;
      if size + dataLen > maxSize {
        return false;
      }
      var byBlob := BlobsOf(byTx, tx);
      if id in byBlob {
        return false;
      }
      Accepts(maxSize, size, byTx, history, tx, id, data);
      byTx := byTx[tx := byBlob[id := data]];
      size := size + dataLen;
      history := history + [Accepted(tx, id, data)];
      return true;
    }

    /** Hands a blob out and forgets it; the size never drops below zero. */
    method GetAndRemove(tx: int, id: int) returns (data: Option<seq<byte>>)
      requires Valid()
      modifies this
      ensures Valid()
      ensures data == Live(old(history), tx, id)
      ensures history == old(history) + (if data.Some? then [Served(tx, id, data.value)] else [])
      ensures size == old(size) - (if data.Some? then |data.value| else 0)
    {
      HeldIsLive(maxSize, size, byTx, history, tx, id);
      hide Consistent, Live;
      if maxSize <= 0 {
        return None;
      }
      if tx !in byTx {
        return None;
      }
      var byBlob := byTx[tx];
      if id !in byBlob {
        return None;
      }
      var found := byBlob[id];
      Serves(maxSize, size, byTx, history, tx, id);
      byBlob := byBlob - {id};
      ghost var after := Without(byTx, tx, id);
      assert after == if |byBlob| == 0 then byTx - {tx} else byTx[tx := byBlob];
      hide *;
      size := size - |found|;
      if size < 0 {
        assert false;
      }
      if |byBlob| == 0 {
        byTx := byTx - {tx};
      } else {
        byTx := byTx[tx := byBlob];
      }
      history := history + [Served(tx, id, found)];
      return Some(found);
    }

    /** Drops the blobs of one transaction; the size never drops below zero. */
    method ClearTx(tx: int)
      requires Valid()
      modifies this
      ensures Valid()
      ensures history == old(history) + [Dropped(tx)]
      ensures size == old(size) - AllBytes(BlobsOf(old(byTx), tx))
    {
      hide Consistent, AllBytes;
      Drops(maxSize, size, byTx, history, tx);
      history := history + [Dropped(tx)];
      if tx !in byTx {
        return;
      }
      var byBlob := byTx[tx];
      var removed := LengthOfAll(byBlob);
      byTx := byTx - {tx};
      size := size - removed;
      if size < 0 {
        assert false;
      }
    }

    /** The summing loop, which meets the blobs in no particular order. */
    static method LengthOfAll(byBlob: Blobs) returns (removed: nat)
      ensures removed == AllBytes(byBlob)
    {
      removed := 0;
      var left := byBlob.Keys;
      while |left| > 0
        invariant left <= byBlob.Keys
        invariant removed + BytesOf(byBlob, left) == AllBytes(byBlob)
      {
        HasElement(left);
        var id: int :| id in left;
        BytesRemove(byBlob, left, id);
        removed := removed + |byBlob[id]|;
        left := left - {id};
      }
    }

    method ClearAll()
      requires Valid()
      modifies this
      ensures Valid()
      ensures history == old(history) + [DroppedAll] && size == 0 && byTx == map[]
    {
      assert (history + [DroppedAll])[..|history|] == history;
      Empty(maxSize, history + [DroppedAll]);
      hide *;
      byTx := map[];
      size := 0;
      history := history + [DroppedAll];
    }
  }
}
