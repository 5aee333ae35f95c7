/**
 * The PHP array that holds a collection's assets: an ordered map from
 * integer-or-string keys to values. Besides its entries in insertion order
 * a PHP array carries the next automatic integer index (used by `$a[] = v`)
 * and an internal pointer (used by reset/current/key/next). PHP arrays are
 * values, so every operation here returns a new array.
 */
module OrderedMaps {
  import opened Wrappers
  import PhpStrings

  datatype Key = IntKey(i: int) | StrKey(s: string)

  /** A key in the form PHP stores it: a string key never reads as an integer. */
  predicate IsNormal(k: Key) {
    k.StrKey? ==> PhpStrings.ParseCanonicalInt(k.s).None?
  }

  /** PHP turns a string key that is the decimal text of an integer into that integer. */
  function Normalize(k: Key): (r: Key)
    ensures IsNormal(r)
    ensures IsNormal(k) ==> r == k
    ensures r.StrKey? ==> r == k
  {
    if k.StrKey? && PhpStrings.ParseCanonicalInt(k.s).Some? then IntKey(PhpStrings.ParseCanonicalInt(k.s).value) else k
  }

  /** `$a["12"]` and `$a[12]` are the same slot, and only the exact text of an integer is such a key. */
  lemma NormalizeNumericString(s: string, n: int)
    ensures Normalize(StrKey(s)) == IntKey(n) <==> s == PhpStrings.IntToString(n)
  {
    PhpStrings.ParseIffIntToString(s, n);
  }

  datatype Entry<V> = Entry(key: Key, value: V)

  /**
   * entries: the (key, value) pairs in order; nextFree: the index `$a[] = v` uses;
   * pos: the internal pointer, as the position of the current entry (|entries| once past the end).
   */
  datatype OrderedMap<V> = OrderedMap(entries: seq<Entry<V>>, nextFree: int, pos: nat)

  /** What PHP maintains of every array: normal, distinct keys, all integer keys below nextFree. */
  ghost predicate WellFormed<V>(m: OrderedMap<V>) {
    && m.nextFree >= 0
    && m.pos <= |m.entries|
    && (forall i :: 0 <= i < |m.entries| ==> IsNormal(m.entries[i].key))
    && (forall i, j :: 0 <= i < j < |m.entries| ==> m.entries[i].key != m.entries[j].key)
    && (forall i :: 0 <= i < |m.entries| && m.entries[i].key.IntKey? ==> m.entries[i].key.i < m.nextFree)
  }

  function KeysOf<V>(es: seq<Entry<V>>): seq<Key> {
    seq(|es|, i requires 0 <= i < |es| => es[i].key)
  }

  function ValuesOf<V>(es: seq<Entry<V>>): seq<V> {
    seq(|es|, i requires 0 <= i < |es| => es[i].value)
  }

  ghost predicate HasKey<V>(es: seq<Entry<V>>, k: Key) {
    exists i :: 0 <= i < |es| && es[i].key == k
  }

  /** `array()` */
  function Empty<V>(): (m: OrderedMap<V>)
    ensures WellFormed(m) && m.entries == []
  {
    OrderedMap([], 0, 0)
  }

  /** The position of key `k`, if any: the hash lookup PHP performs. */
  function Find<V>(es: seq<Entry<V>>, k: Key): (r: Option<nat>)
    ensures r.Some? ==> r.value < |es| && es[r.value].key == k
    ensures r.Some? ==> forall j :: 0 <= j < r.value ==> es[j].key != k
    ensures r.None? ==> forall j :: 0 <= j < |es| ==> es[j].key != k
  {
    if es == [] then None
    else if es[0].key == k then Some(0)
    else match Find(es[1..], k)
      case Some(i) => Some(i + 1)
      case None => None
  }

  /** `isset($a[$k]) ? $a[$k] : NULL` */
  function Get<V>(m: OrderedMap<V>, k: Key): (r: Option<V>)
    ensures r.None? <==> !HasKey(m.entries, Normalize(k))
    ensures r.Some? ==> exists i :: 0 <= i < |m.entries| && m.entries[i] == Entry(Normalize(k), r.value)
  {
    match Find(m.entries, Normalize(k))
    case Some(i) => Some(m.entries[i].value)
    case None => None
  }

  /** `isset($a[$k])` (the values stored here are never NULL) */
  function Has<V>(m: OrderedMap<V>, k: Key): (b: bool)
    ensures b <==> HasKey(m.entries, Normalize(k))
  {
    Find(m.entries, Normalize(k)).Some?
  }

  /** The automatic index after a new key: an integer key at or beyond it moves it past that key. */
  function BumpNext(next: int, k: Key): (r: int)
    ensures r >= next
    ensures k.IntKey? ==> k.i < r
  {
    if k.IntKey? && k.i >= next then k.i + 1 else next
  }

  /** `$a[$k] = $v`: overwrite in place when the key is present, otherwise append. */
  function Set<V>(m: OrderedMap<V>, k: Key, v: V): (r: OrderedMap<V>)
    ensures WellFormed(m) ==> WellFormed(r)
    ensures r.pos == m.pos
    ensures HasKey(r.entries, Normalize(k))
    ensures HasKey(m.entries, Normalize(k)) ==> |r.entries| == |m.entries| && KeysOf(r.entries) == KeysOf(m.entries)
    ensures !HasKey(m.entries, Normalize(k)) ==> r.entries == m.entries + [Entry(Normalize(k), v)]
    ensures forall j :: 0 <= j < |m.entries| && m.entries[j].key != Normalize(k) ==> r.entries[j] == m.entries[j]
    ensures WellFormed(m) ==> forall j :: 0 <= j < |r.entries| && r.entries[j].key == Normalize(k) ==> r.entries[j].value == v
  {
    var nk := Normalize(k);
    match Find(m.entries, nk)
    case Some(i) =>
      var r := m.(entries := m.entries[i := Entry(nk, v)]);
      assert r.entries[i].key == nk;
      r
    case None =>
      var r := OrderedMap(m.entries + [Entry(nk, v)], BumpNext(m.nextFree, nk), m.pos);
      assert r.entries[|m.entries|].key == nk;
      r
  }

  /** `$a[] = $v`: append under the next automatic index. */
  function Push<V>(m: OrderedMap<V>, v: V): (r: OrderedMap<V>)
    ensures |r.entries| == |m.entries| + 1 && r.entries[..|m.entries|] == m.entries
    ensures r.nextFree > m.nextFree && r.pos == m.pos
    ensures WellFormed(m) ==> WellFormed(r) && !HasKey(m.entries, IntKey(m.nextFree))
  {
    OrderedMap(m.entries + [Entry(IntKey(m.nextFree), v)], m.nextFree + 1, m.pos)
  }

  /** `es` without the entry at position `i`; the others keep their relative order. */
  function RemoveAt<V>(es: seq<Entry<V>>, i: nat): (r: seq<Entry<V>>)
    requires i < |es|
  {
    seq(|es| - 1, t requires 0 <= t < |es| - 1 => es[if t < i then t else t + 1])
  }

  /**
   * `unset($a[$k])`: drop the entry. The automatic index is not lowered, so a freed
   * index is not reused until a sort of a non-empty array resets the index to the
   * count; the pointer stays on the entry it was on, or moves to the next one when
   * that entry is the one removed.
   */
  function Unset<V>(m: OrderedMap<V>, k: Key): (r: OrderedMap<V>)
    ensures r.nextFree == m.nextFree
    ensures !HasKey(m.entries, Normalize(k)) ==> r == m
    ensures HasKey(m.entries, Normalize(k)) ==> |r.entries| == |m.entries| - 1
    ensures forall j :: 0 <= j < |r.entries| ==> r.entries[j] in m.entries
  {
    match Find(m.entries, Normalize(k))
    case None => m
    case Some(i) => OrderedMap(RemoveAt(m.entries, i), m.nextFree, if i < m.pos then m.pos - 1 else m.pos)
  }

  /** The array `usort` leaves behind when it has entries: the values renumbered 0..n-1, the pointer reset. */
  function FromList<V>(vs: seq<V>): (r: OrderedMap<V>)
    ensures WellFormed(r)
    ensures ValuesOf(r.entries) == vs
    ensures forall i :: 0 <= i < |r.entries| ==> r.entries[i].key == IntKey(i)
    ensures r.nextFree == |vs| && r.pos == 0
  {
    OrderedMap(seq(|vs|, i requires 0 <= i < |vs| => Entry(IntKey(i), vs[i])), |vs|, 0)
  }

  /** `reset($a)` */
  function Reset<V>(m: OrderedMap<V>): (r: OrderedMap<V>)
    ensures r.entries == m.entries && r.nextFree == m.nextFree
    ensures WellFormed(m) ==> WellFormed(r)
    ensures CurrentEntry(r) == if m.entries == [] then None else Some(m.entries[0])
  {
    m.(pos := 0)
  }

  /** The entry under the internal pointer; None once past the end. */
  function CurrentEntry<V>(m: OrderedMap<V>): (r: Option<Entry<V>>)
    ensures r.None? <==> m.pos >= |m.entries|
    ensures r.Some? ==> r.value in m.entries
  {
    if m.pos < |m.entries| then Some(m.entries[m.pos]) else None
  }

  /** `next($a)`: advance the pointer, never beyond the end. */
  function Next<V>(m: OrderedMap<V>): (r: OrderedMap<V>)
    ensures r.entries == m.entries && r.nextFree == m.nextFree
    ensures WellFormed(m) ==> WellFormed(r)
    ensures CurrentEntry(m).Some? ==> r.pos == m.pos + 1
    ensures CurrentEntry(m).None? ==> r == m
  {
    m.(pos := if m.pos < |m.entries| then m.pos + 1 else m.pos)
  }

  /** In a well-formed array every entry is found under its own key. */
  lemma GetAt<V>(m: OrderedMap<V>, j: nat)
    requires WellFormed(m) && j < |m.entries|
    ensures Get(m, m.entries[j].key) == Some(m.entries[j].value)
  {
    var k := m.entries[j].key;
    assert Normalize(k) == k;
    var f := Find(m.entries, k);
    assert f == Some(j);
  }

  /** Reading back what was written under a key gives the value; every other key reads as before. */
  lemma GetAfterSet<V>(m: OrderedMap<V>, k: Key, v: V, k2: Key)
    requires WellFormed(m)
    ensures Get(Set(m, k, v), k2) == if Normalize(k2) == Normalize(k) then Some(v) else Get(m, k2)
  {
    var r := Set(m, k, v);
    if Normalize(k2) == Normalize(k) {
      var i :| 0 <= i < |r.entries| && r.entries[i].key == Normalize(k);
      GetAt(r, i);
    } else if HasKey(m.entries, Normalize(k2)) {
      var i :| 0 <= i < |m.entries| && m.entries[i].key == Normalize(k2);
      GetAt(m, i);
      GetAt(r, i);
    } else {
      assert forall j :: 0 <= j < |r.entries| ==> r.entries[j].key != Normalize(k2) by {
        forall j | 0 <= j < |r.entries| ensures r.entries[j].key != Normalize(k2) {
          if j < |m.entries| && m.entries[j].key != Normalize(k) {
            assert r.entries[j] == m.entries[j];
          }
        }
      }
    }
  }

  /**
   * `$a[] = $v` adds exactly one entry, last, under an integer key the array has
   * not used, and leaves every earlier entry as it was.
   */
  lemma PushAppends<V>(m: OrderedMap<V>, v: V)
    requires WellFormed(m)
    ensures Push(m, v).entries == m.entries + [Entry(IntKey(m.nextFree), v)]
    ensures Get(Push(m, v), IntKey(m.nextFree)) == Some(v)
    ensures forall k :: Normalize(k) != IntKey(m.nextFree) ==> Get(Push(m, v), k) == Get(m, k)
  {
    var r := Push(m, v);
    assert WellFormed(r);
    GetAt(r, |m.entries|);
    forall k | Normalize(k) != IntKey(m.nextFree) ensures Get(r, k) == Get(m, k) {
      if HasKey(m.entries, Normalize(k)) {
        var i :| 0 <= i < |m.entries| && m.entries[i].key == Normalize(k);
        GetAt(m, i);
        GetAt(r, i);
      } else {
        assert !HasKey(r.entries, Normalize(k));
      }
    }
  }

  /** Taking one entry out of a well-formed array leaves a well-formed array without that key. */
  lemma RemoveAtWellFormed<V>(m: OrderedMap<V>, i: nat, pos: nat)
    requires WellFormed(m) && i < |m.entries| && pos < |m.entries|
    ensures WellFormed(OrderedMap(RemoveAt(m.entries, i), m.nextFree, pos))
    ensures !HasKey(RemoveAt(m.entries, i), m.entries[i].key)
  {
    var es := m.entries;
    var r := RemoveAt(es, i);
    forall a, b | 0 <= a < b < |r| ensures r[a].key != r[b].key {
      assert r[a] == es[if a < i then a else a + 1];
      assert r[b] == es[if b < i then b else b + 1];
    }
    forall t | 0 <= t < |r| ensures r[t].key != es[i].key {
      assert r[t] == es[if t < i then t else t + 1];
    }
  }

  /**
   * `unset($a[$k])` keeps the array well formed, leaves `k` absent, and lowers the
   * count by one exactly when `k` was present; an absent key changes nothing. The
   * entries left are the others in their relative order, and the pointer stays on
   * its entry unless that entry was the one removed.
   */
  lemma UnsetShape<V>(m: OrderedMap<V>, k: Key)
    requires WellFormed(m)
    ensures WellFormed(Unset(m, k))
    ensures !HasKey(Unset(m, k).entries, Normalize(k))
    ensures |Unset(m, k).entries| == if HasKey(m.entries, Normalize(k)) then |m.entries| - 1 else |m.entries|
    ensures !HasKey(m.entries, Normalize(k)) ==> Unset(m, k) == m
    ensures HasKey(m.entries, Normalize(k)) ==>
      exists i :: 0 <= i < |m.entries| && m.entries[i].key == Normalize(k) &&
        Unset(m, k).entries == RemoveAt(m.entries, i)
    ensures CurrentEntry(m).Some? && CurrentEntry(m).value.key != Normalize(k) ==>
      CurrentEntry(Unset(m, k)) == CurrentEntry(m)
  {
    match Find(m.entries, Normalize(k))
    case None =>
    case Some(i) =>
      var pos := if i < m.pos then m.pos - 1 else m.pos;
      var r := OrderedMap(RemoveAt(m.entries, i), m.nextFree, pos);
      assert Unset(m, k) == r;
      RemoveAtWellFormed(m, i, pos);
      assert m.entries[i].key == Normalize(k) && r.entries == RemoveAt(m.entries, i);
      if m.pos < |m.entries| && m.entries[m.pos].key != Normalize(k) {
        assert m.pos != i && r.entries[pos] == m.entries[m.pos];
      }
  }

  /** Find returns the first position holding the key. */
  lemma FindFirst<V>(es: seq<Entry<V>>, k: Key, j: nat)
    requires j < |es| && es[j].key == k
    requires forall t :: 0 <= t < j ==> es[t].key != k
    ensures Find(es, k) == Some(j)
  {
  }

  /** Removing the entry at `i` moves every other key's first position down past `i`. */
  lemma FindAfterRemoveAt<V>(es: seq<Entry<V>>, i: nat, k: Key)
    requires i < |es| && es[i].key != k
    ensures Find(RemoveAt(es, i), k) == match Find(es, k)
      case Some(j) => Some(if j < i then j else j - 1)
      case None => None
  {
    var rest := RemoveAt(es, i);
    match Find(es, k)
    case Some(j) =>
      var j' := if j < i then j else j - 1;
      assert rest[j'] == es[j];
      FindFirst(rest, k, j');
    case None =>
  }

  /** `unset($a[$k])` leaves every other key reading as before. */
  lemma UnsetKeepsOthers<V>(m: OrderedMap<V>, k: Key, k2: Key)
    requires Normalize(k2) != Normalize(k)
    ensures Get(Unset(m, k), k2) == Get(m, k2)
  {
    var nk2 := Normalize(k2);
    match Find(m.entries, Normalize(k))
    case None =>
    case Some(i) =>
      var es := m.entries;
      FindAfterRemoveAt(es, i, nk2);
      match Find(es, nk2)
      case Some(j) =>
        assert RemoveAt(es, i)[if j < i then j else j - 1] == es[j];
      case None =>
  }

  /**
   * `unset($a[$k])` removes the entry under `k` and nothing else: every other key
   * reads as before, and `k` reads as absent.
   */
  lemma UnsetRemovesOnly<V>(m: OrderedMap<V>, k: Key, k2: Key)
    requires WellFormed(m)
    ensures Get(Unset(m, k), k2) == if Normalize(k2) == Normalize(k) then None else Get(m, k2)
  {
    if Normalize(k2) == Normalize(k) {
      UnsetShape(m, k);
    } else {
      UnsetKeepsOthers(m, k, k2);
    }
  }

  /** Walking an array from `reset` with `next` visits its entries in order, `pos` steps in. */
  function Advance<V>(m: OrderedMap<V>, steps: nat): OrderedMap<V> {
    if steps == 0 then m else Next(Advance(m, steps - 1))
  }

  lemma {:induction false} AdvanceVisitsInOrder<V>(m: OrderedMap<V>, steps: nat)
    requires steps <= |m.entries|
    ensures Advance(Reset(m), steps).entries == m.entries
    ensures Advance(Reset(m), steps).pos == steps
    ensures CurrentEntry(Advance(Reset(m), steps)) == if steps < |m.entries| then Some(m.entries[steps]) else None
  {
    if steps > 0 {
      AdvanceVisitsInOrder(m, steps - 1);
    }
  }
}
