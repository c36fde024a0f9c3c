/** Big-endian keys: the byte order of keys is the numeric order of ids. */
module BigEndian {
  import opened Common

  type Key = seq<Byte>

  /** `n` in base 256, most significant byte first, on exactly `width` bytes. */
  function Encode(n: nat, width: nat): (k: Key)
    ensures |k| == width
  {
    if width == 0 then [] else Encode(n / 256, width - 1) + [n % 256]
  }

  function Decode(k: Key): nat {
    if k == [] then 0 else Decode(k[..|k| - 1]) * 256 + k[|k| - 1]
  }

  /** The key of queue entry `id`. */
  function SeqKey(id: Uint64): Key { Encode(id, 8) }

  function Pow256(width: nat): nat { if width == 0 then 1 else 256 * Pow256(width - 1) }

  /** The order in which a cursor visits keys. */
  predicate LexLess(a: Key, b: Key) {
    b != [] && (a == [] || a[0] < b[0] || (a[0] == b[0] && LexLess(a[1..], b[1..])))
  }

  lemma {:induction false} DecodeEncode(n: nat, width: nat)
    requires n < Pow256(width)
    ensures Decode(Encode(n, width)) == n
  {
    if width > 0 {
      DecodeEncode(n / 256, width - 1);
      assert Encode(n, width)[..width - 1] == Encode(n / 256, width - 1);
    }
  }

  lemma {:induction false} EncodeDecode(k: Key)
    ensures Decode(k) < Pow256(|k|)
    ensures Encode(Decode(k), |k|) == k
  {
    if k != [] {
      EncodeDecode(k[..|k| - 1]);
      assert k == k[..|k| - 1] + [k[|k| - 1]];
    }
  }

  /** Comparing two keys of equal length is comparing all but the last byte, then the last one. */
  lemma {:induction false} LexLessSnoc(a: Key, b: Key, x: Byte, y: Byte)
    requires |a| == |b|
    ensures LexLess(a + [x], b + [y]) <==> LexLess(a, b) || (a == b && x < y)
  {
    if a != [] {
      LexLessSnoc(a[1..], b[1..], x, y);
      assert (a + [x])[1..] == a[1..] + [x] && (b + [y])[1..] == b[1..] + [y];
      assert a == [a[0]] + a[1..] && b == [b[0]] + b[1..];
    }
  }

  lemma {:induction false} EncodeOrder(m: nat, n: nat, width: nat)
    requires m < Pow256(width) && n < Pow256(width)
    ensures LexLess(Encode(m, width), Encode(n, width)) <==> m < n
    ensures Encode(m, width) == Encode(n, width) <==> m == n
  {
    if width > 0 {
      EncodeOrder(m / 256, n / 256, width - 1);
      LexLessSnoc(Encode(m / 256, width - 1), Encode(n / 256, width - 1), m % 256, n % 256);
      var a, b := Encode(m, width), Encode(n, width);
      assert a[..width - 1] == Encode(m / 256, width - 1) && a[width - 1] == m % 256;
      assert b[..width - 1] == Encode(n / 256, width - 1) && b[width - 1] == n % 256;
    }
  }

  /** The eight bytes of a key weigh as much as their places say, the most significant first. */
  lemma SeqKeyBytes(id: Uint64)
    ensures var k: seq<int> := SeqKey(id);
            && |k| == 8
            && id == k[0] * 0x100_0000_0000_0000 + k[1] * 0x1_0000_0000_0000 + k[2] * 0x100_0000_0000
                     + k[3] * 0x1_0000_0000 + k[4] * 0x100_0000 + k[5] * 0x1_0000 + k[6] * 0x100 + k[7]
  {
    var k := SeqKey(id);
    SeqKeyOrder(id, id);
    DecodeStep(k, 7);
    DecodeStep(k, 6);
    DecodeStep(k, 5);
    DecodeStep(k, 4);
    DecodeStep(k, 3);
    DecodeStep(k, 2);
    DecodeStep(k, 1);
    DecodeStep(k, 0);
    assert k[..8] == k && k[..0] == [];
  }

  lemma DecodeStep(k: Key, i: nat)
    requires i < |k|
    ensures Decode(k[..i + 1]) == Decode(k[..i]) * 256 + k[i]
  {
    assert k[..i + 1][..i] == k[..i];
  }

  /** The order of keys is decided by the first byte in which they differ; a key comes after its prefixes. */
  lemma {:induction false} LexLessIsFirstDifference(a: Key, b: Key)
    ensures LexLess(a, b) <==>
      exists i: nat :: i <= |a| && i < |b| && a[..i] == b[..i] && (i < |a| ==> a[i] < b[i])
  {
    if b != [] && (a == [] || a[0] < b[0]) {
      assert a[..0] == b[..0];
    } else if a != [] && b != [] && a[0] == b[0] {
      LexLessIsFirstDifference(a[1..], b[1..]);
      if LexLess(a[1..], b[1..]) {
        var i: nat :| i <= |a[1..]| && i < |b[1..]| && a[1..][..i] == b[1..][..i]
                      && (i < |a[1..]| ==> a[1..][i] < b[1..][i]);
        assert a[..i + 1] == [a[0]] + a[1..][..i] && b[..i + 1] == [b[0]] + b[1..][..i];
      }
      if i: nat :| i <= |a| && i < |b| && a[..i] == b[..i] && (i < |a| ==> a[i] < b[i]) {
        assert i > 0;
        assert a[1..][..i - 1] == a[..i][1..] && b[1..][..i - 1] == b[..i][1..];
      }
    } else if a != [] && b != [] {
      forall i: nat | 0 < i <= |a| && i < |b| ensures a[..i] != b[..i] { assert a[..i][0] != b[..i][0]; }
    }
  }

  /** Keys are injective over all 64-bit ids, decode back, and order exactly as the ids do. */
  lemma SeqKeyOrder(a: Uint64, b: Uint64)
    ensures LexLess(SeqKey(a), SeqKey(b)) <==> a < b
    ensures SeqKey(a) == SeqKey(b) <==> a == b
    ensures Decode(SeqKey(a)) == a
  {
    EightBytes();
    EncodeOrder(a, b, 8);
    DecodeEncode(a, 8);
  }

  /** Every 8-byte key is the key of exactly the id it decodes to. */
  lemma SeqKeyOnto(k: Key)
    requires |k| == 8
    ensures Decode(k) < TWO_64 && SeqKey(Decode(k)) == k
  {
    EightBytes();
    EncodeDecode(k);
  }

  lemma EightBytes()
    ensures Pow256(8) == TWO_64
  {
    assert Pow256(3) == 256 * 256 * 256;
    assert Pow256(6) == 256 * 256 * 256 * Pow256(3);
  }

  lemma {:induction false} LexTotal(a: Key, b: Key)
    ensures a == b || LexLess(a, b) || LexLess(b, a)
    ensures !(LexLess(a, b) && LexLess(b, a)) && !LexLess(a, a)
  {
    if a != [] && b != [] {
      LexTotal(a[1..], b[1..]);
      assert a == [a[0]] + a[1..] && b == [b[0]] + b[1..];
    }
    if a != [] { LexTotal(a[1..], a[1..]); }
  }

  lemma {:induction false} LexTransitive(a: Key, b: Key, c: Key)
    requires LexLess(a, b) && LexLess(b, c)
    ensures LexLess(a, c)
  {
    if a != [] && a[0] == b[0] == c[0] {
      LexTransitive(a[1..], b[1..], c[1..]);
    }
  }
}
