/** Octets, and the small facts about sequences that several modules share. */
module Bytes {
  type byte = b: int | 0 <= b < 256

  datatype Option<T> = None | Some(value: T)

  function Min(a: int, b: int): int {
    if a < b then a else b
  }

  function Max(a: int, b: int): int {
    if a < b then b else a
  }

  lemma Regroup<T>(a: seq<T>, b: seq<T>, c: seq<T>)
    ensures a + b + c == a + (b + c)
  {
  }

  lemma Rejoin<T>(s: seq<T>, k: nat)
    requires k <= |s|
    ensures s[..k] + s[k..] == s
  {
  }

  lemma PrefixGrows<T>(s: seq<T>, a: nat, b: nat)
    requires a <= b <= |s|
    ensures s[..a] + s[a..b] == s[..b]
  {
  }

  lemma SubsetSize<T>(a: set<T>, b: set<T>)
    requires a <= b
    ensures |a| <= |b|
  {
    assert b == a + (b - a);
  }

  // ----- Octets in pieces

  /** The octets of a chain of buffers in one piece. */
  function Flat(chain: seq<seq<byte>>): seq<byte> {
    if chain == [] then [] else chain[0] + Flat(chain[1..])
  }

  lemma {:induction false} FlatSnoc(chain: seq<seq<byte>>, b: seq<byte>)
    ensures Flat(chain + [b]) == Flat(chain) + b
  {
    if chain == [] {
      assert chain + [b] == [b] && Flat([b]) == b + Flat([]);
    } else {
      assert (chain + [b])[1..] == chain[1..] + [b];
      FlatSnoc(chain[1..], b);
      Regroup(chain[0], Flat(chain[1..]), b);
    }
  }

  lemma {:induction false} FlatPrefix(chain: seq<seq<byte>>, i: nat, n: nat)
    requires i < |chain| && n <= |chain[i]|
    ensures |Flat(chain[..i])| + n <= |Flat(chain)|
    ensures Flat(chain)[..|Flat(chain[..i])| + n] == Flat(chain[..i]) + chain[i][..n]
  {
    if i == 0 {
      assert chain[..0] == [];
      assert (chain[0] + Flat(chain[1..]))[..n] == chain[0][..n];
    } else {
      var (h, rest) := (chain[0], chain[1..]);
      assert chain[..i][1..] == rest[..i - 1] && chain[..i][0] == h;
      FlatPrefix(rest, i - 1, n);
      var k := |Flat(rest[..i - 1])| + n;
      assert (h + Flat(rest))[..|h| + k] == h + Flat(rest)[..k];
      Regroup(h, Flat(rest[..i - 1]), chain[i][..n]);
    }
  }
}
