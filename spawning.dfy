/**
 * Random cell states, shared by the engine and the Life example: each cell
 * becomes alive when `gen_bool(p)` fires on the generator's next word.
 */
module Spawning {
  import opened Common

  /** The generator words `n` calls of `gen_bool(p)` read: none for `p == 1`, one each otherwise. */
  function SpawnWords(n: nat, p: real): nat {
    if p == 1.0 then 0 else n
  }

  /**
   * The buffer `randomize` writes: cell `i` is alive when `gen_bool(p)` fires,
   * on the word at `pos + i` (no word is read when `p == 1`).
   */
  function Spawned(words: seq<u64>, pos: nat, n: nat, p: real): (s: seq<u8>)
    requires 0.0 <= p <= 1.0 && pos + SpawnWords(n, p) <= |words|
    ensures |s| == n && Binary(s)
  {
    seq(n, i requires 0 <= i < n => if p == 1.0 || GenBool(words[pos + i], p) then 1 else 0)
  }

  /**
   * Spawn chance 0 leaves every cell dead, 1 makes every cell alive, and a
   * higher chance keeps alive every cell a lower one makes alive, on the same words.
   */
  lemma SpawnedBounds(words: seq<u64>, pos: nat, n: nat, p: real, q: real)
    requires 0.0 <= p <= q <= 1.0 && pos + n <= |words|
    ensures forall i :: 0 <= i < n ==> Spawned(words, pos, n, 0.0)[i] == 0 && Spawned(words, pos, n, 1.0)[i] == 1
    ensures forall i :: 0 <= i < n ==> Spawned(words, pos, n, p)[i] <= Spawned(words, pos, n, q)[i]
  {
    forall i | 0 <= i < n
      ensures Spawned(words, pos, n, 0.0)[i] == 0
      ensures Spawned(words, pos, n, p)[i] <= Spawned(words, pos, n, q)[i]
    {
      GenBoolBounds(words[pos + i], p, q);
    }
  }

  /**
   * The loop of `randomize` and `randomize_next`: every cell of `buf`, in
   * order, gets `gen_bool(p)` from the generator at `pos`; `next` is where the
   * generator stops.
   */
  method SpawnInto(buf: array<u8>, rng: seq<u64>, pos: nat, p: real) returns (next: nat)
    requires 0.0 <= p <= 1.0 && pos + SpawnWords(buf.Length, p) <= |rng|
    modifies buf
    ensures buf[..] == Spawned(rng, pos, buf.Length, p)
    ensures next == pos + SpawnWords(buf.Length, p)
  {
    ghost var spawned := Spawned(rng, pos, buf.Length, p);
    next := pos;
    var i := 0;
    while i < buf.Length
      invariant 0 <= i <= buf.Length
      invariant next == pos + SpawnWords(i, p)
      invariant buf[..i] == spawned[..i]
    {
      var alive := true;
      if p != 1.0 {
        alive := GenBool(rng[next], p);
        next := next + 1;
      }
      buf[i] := if alive then 1 else 0;
      i := i + 1;
    }
  }
}
