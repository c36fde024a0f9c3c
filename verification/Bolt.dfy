/** The part of the embedded key/value database that the store relies on: buckets of byte keys with a
    sequence counter, and a cursor that visits keys in byte order. */
module Bolt {
  import opened Common
  import opened BigEndian

  datatype Bucket<V> = Bucket(sequence: Uint64, entries: map<Key, V>)

  predicate IsLeast(k: Key, s: set<Key>) {
    k in s && forall x | x in s :: x == k || LexLess(k, x)
  }

  lemma {:induction false} LeastExists(s: set<Key>)
    requires s != {}
    ensures exists k :: IsLeast(k, s)
    decreases s
  {
    var x :| x in s;
    var rest := s - {x};
    if rest == {} {
      assert forall z | z in s :: z == x || z in rest;
      assert IsLeast(x, s);
    } else {
      LeastExists(rest);
      var y :| IsLeast(y, rest);
      LexTotal(x, y);
      if LexLess(x, y) {
        forall z | z in s ensures z == x || LexLess(x, z) {
          if z in rest && z != y { LexTransitive(x, y, z); }
        }
        assert IsLeast(x, s);
      } else {
        assert IsLeast(y, s);
      }
    }
  }

  /** Cursor.First: the smallest key, if any. */
  method First(keys: set<Key>) returns (k: Option<Key>)
    ensures k.None? <==> keys == {}
    ensures k.Some? ==> IsLeast(k.value, keys)
  {
    if keys == {} { return None; }
    LeastExists(keys);
    var least :| least in keys && IsLeast(least, keys);
    return Some(least);
  }

  /** Cursor.Next: the smallest key above `after`, if any. */
  method Next(keys: set<Key>, after: Key) returns (k: Option<Key>)
    ensures k.None? <==> forall x | x in keys :: !LexLess(after, x)
    ensures k.Some? ==> IsLeast(k.value, set x | x in keys && LexLess(after, x))
  {
    var above := set x | x in keys && LexLess(after, x);
    k := First(above);
    assert forall x | x in keys && LexLess(after, x) :: x in above;
  }

  // ----- The same cursor seen through ids -----

  predicate IdKeys(keys: set<Key>) { forall k | k in keys :: |k| == 8 }

  /** The cursor shows the entry with the smallest id that is at least `from`; `pos` is that id,
      or 2^64 when no such entry exists and the cursor is at its end. */
  ghost predicate CursorAt(k: Option<Key>, keys: set<Key>, from: nat, pos: nat) {
    && from <= pos <= TWO_64
    && (pos < TWO_64 ==> k == Some(SeqKey(pos)) && SeqKey(pos) in keys)
    && (pos == TWO_64 ==> k == None)
    && forall id: Uint64 | from <= id < pos :: SeqKey(id) !in keys
  }

  lemma FirstShowsLeastId(keys: set<Key>, k: Option<Key>) returns (pos: nat)
    requires IdKeys(keys)
    requires k.None? <==> keys == {}
    requires k.Some? ==> IsLeast(k.value, keys)
    ensures CursorAt(k, keys, 0, pos)
  {
    if k.None? { return TWO_64; }
    SeqKeyOnto(k.value);
    pos := Decode(k.value);
    forall id: Uint64 | id < pos ensures SeqKey(id) !in keys {
      SeqKeyOrder(id, pos);
      SeqKeyOrder(pos, id);
    }
  }

  lemma NextShowsNextId(keys: set<Key>, after: Uint64, k: Option<Key>) returns (pos: nat)
    requires IdKeys(keys)
    requires k.None? <==> forall x | x in keys :: !LexLess(SeqKey(after), x)
    requires k.Some? ==> IsLeast(k.value, set x | x in keys && LexLess(SeqKey(after), x))
    ensures CursorAt(k, keys, after + 1, pos)
  {
    if k.None? {
      pos := TWO_64;
    } else {
      SeqKeyOnto(k.value);
      pos := Decode(k.value);
      SeqKeyOrder(after, pos);
    }
    forall id: Uint64 | after + 1 <= id < pos ensures SeqKey(id) !in keys {
      SeqKeyOrder(after, id);
      if k.Some? { SeqKeyOrder(pos, id); SeqKeyOrder(id, pos); }
    }
  }
}
