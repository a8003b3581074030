/**
 * The rule table: `HashRule` maps a packed neighbourhood key to the next cell
 * state, `RulesCollection` holds an ordered list of such rules and answers a
 * lookup with the first rule that knows the key.
 *
 * Randomness: the generator is modelled as the finite supply of `u64` words it
 * would produce (`seq<u64>`) and the position it is at. Every pass of
 * `fill_random`'s loop reads two words: the raw key (`gen::<u64>()`) and the
 * word `gen_bool(0.5)` compares against its threshold. An operation takes the
 * position the generator is at and returns the position it leaves it at.
 */
module Rules {
  import opened Common

  /** The key mask of `fill_random`: `2^bits - 1`, saturating at `u64::MAX` from 64 bits on. */
  function KeyMask(bits: nat): (mask: u64)
    ensures bits < 64 ==> mask + 1 == Pow2(bits)
    ensures bits >= 64 ==> mask == U64_MAX
  {
    if bits >= 64 then U64_MAX
    else
      Pow2Monotone(bits, 64);
      Pow2Of64();
      Pow2(bits) - 1
  }

  /**
   * `raw & mask`. The mask is a block of low one-bits, so the conjunction keeps
   * the low `bits` bits of the word: its remainder modulo `2^bits`.
   */
  function MaskKey(raw: u64, bits: nat): (key: u64)
    ensures key <= KeyMask(bits)
    ensures raw <= KeyMask(bits) ==> key == raw
  {
    if bits >= 64 then raw
    else
      var m := Pow2(bits);
      if raw < m then DivModUnique(raw, m, 0, raw); raw % m else raw % m
  }

  /** The state a fill leaves behind: the table and the position the generator stopped at. */
  datatype Fill = Fill(table: map<u64, u8>, next: nat)

  /**
   * One pass of `fill_random`'s loop: `entry(raw & mask).or_insert(coin)`, where
   * the coin is `gen_bool(0.5)` on the second word. A new key gets the coin; a
   * key already present keeps its value.
   */
  function OrInsert(table: map<u64, u8>, raw: u64, coinWord: u64, bits: nat): map<u64, u8> {
    var key := MaskKey(raw, bits);
    var value: u8 := if GenBool(coinWord, 0.5) then 1 else 0;
    if key in table then table else table[key := value]
  }

  /** `or_insert` adds the drawn key, keeps the value of every key already present, and gives a new key the coin. */
  lemma OrInsertFacts(table: map<u64, u8>, raw: u64, coinWord: u64, bits: nat)
    ensures var t := OrInsert(table, raw, coinWord, bits);
      t.Keys == table.Keys + {MaskKey(raw, bits)} &&
      (forall k :: k in table ==> t[k] == table[k]) &&
      (MaskKey(raw, bits) !in table ==> t[MaskKey(raw, bits)] == if coinWord < 0x8000_0000_0000_0000 then 1 else 0)
  {
  }

  /**
   * The loop of `fill_random` from the table `table`, with the generator at
   * position `pos`: while the table holds fewer than `numKeys` keys, insert the
   * next draw with `OrInsert`. The model also stops when the supply runs out.
   */
  function FillFrom(table: map<u64, u8>, words: seq<u64>, pos: nat, bits: nat, numKeys: nat): (f: Fill)
    requires pos <= |words|
    ensures pos <= f.next <= |words|
    decreases |words| - pos
  {
    if |table| >= numKeys || pos + 2 > |words| then Fill(table, pos)
    else FillFrom(OrInsert(table, words[pos], words[pos + 1], bits), words, pos + 2, bits, numKeys)
  }

  /** Every key is masked to `bits` bits and every output is a cell state. */
  ghost predicate TableWithin(table: map<u64, u8>, bits: nat) {
    forall k :: k in table ==> k <= KeyMask(bits) && table[k] <= 1
  }

  /** The fill only ever writes masked keys and 0/1 values. */
  lemma {:induction false} FillWithin(table: map<u64, u8>, words: seq<u64>, pos: nat, bits: nat, numKeys: nat)
    requires pos <= |words| && TableWithin(table, bits)
    ensures TableWithin(FillFrom(table, words, pos, bits, numKeys).table, bits)
    decreases |words| - pos
  {
    if |table| < numKeys && pos + 2 <= |words| {
      FillWithin(OrInsert(table, words[pos], words[pos + 1], bits), words, pos + 2, bits, numKeys);
    }
  }

  /** `or_insert`: a key already in the table keeps its value, so the first draw of a key wins. */
  lemma {:induction false} FillKeepsExisting(table: map<u64, u8>, words: seq<u64>, pos: nat, bits: nat, numKeys: nat, k: u64)
    requires pos <= |words| && k in table
    ensures k in FillFrom(table, words, pos, bits, numKeys).table
    ensures FillFrom(table, words, pos, bits, numKeys).table[k] == table[k]
    decreases |words| - pos
  {
    if |table| < numKeys && pos + 2 <= |words| {
      FillKeepsExisting(OrInsert(table, words[pos], words[pos + 1], bits), words, pos + 2, bits, numKeys, k);
    }
  }

  /**
   * The table only grows, never beyond `numKeys` when it started within it, and
   * a fill that stops short of `numKeys` keys has used up the whole supply.
   */
  lemma {:induction false} FillSize(table: map<u64, u8>, words: seq<u64>, pos: nat, bits: nat, numKeys: nat)
    requires pos <= |words|
    ensures |FillFrom(table, words, pos, bits, numKeys).table| >= |table|
    ensures |table| <= numKeys ==> |FillFrom(table, words, pos, bits, numKeys).table| <= numKeys
    ensures |FillFrom(table, words, pos, bits, numKeys).table| < numKeys ==> FillFrom(table, words, pos, bits, numKeys).next + 2 > |words|
    decreases |words| - pos
  {
    if |table| < numKeys && pos + 2 <= |words| {
      FillSize(OrInsert(table, words[pos], words[pos + 1], bits), words, pos + 2, bits, numKeys);
    }
  }

  lemma NoneIn<T>(s: set<T>)
    requires forall e :: e !in s
    ensures s == {}
  {
  }

  /** Pigeonhole: a set of integers in `[0, n)` has at most `n` elements. */
  lemma {:induction false} KeysBelowBound(s: set<int>, n: nat)
    requires forall k :: k in s ==> 0 <= k < n
    ensures |s| <= n
  {
    if n == 0 {
      assert forall k :: k !in s;
      NoneIn(s);
    } else {
      KeysBelowBound(s - {n - 1}, n - 1);
    }
  }

  /** Pigeonhole, the other way: `n` distinct integers in `[0, n)` are all of them. */
  lemma KeysCoverRange(s: set<int>, n: nat)
    requires forall k :: k in s ==> 0 <= k < n
    requires |s| == n
    ensures forall k :: 0 <= k < n ==> k in s
  {
    forall k | 0 <= k < n
      ensures k in s
    {
      KeysBelowBound(s + {k}, n);
      assert k !in s ==> |s + {k}| == |s| + 1;
    }
  }

  /** A loop of `fill_random` that finished needed no more keys than the mask admits. */
  lemma FullTableFitsMask(table: map<u64, u8>, bits: nat)
    requires TableWithin(table, bits)
    ensures |table| <= KeyMask(bits) + 1
  {
    KeysBelowBound(table.Keys, KeyMask(bits) + 1);
  }

  /** A table of `2^bits` masked keys has an entry for every key below `2^bits`: it is total. */
  lemma FullTableIsTotal(table: map<u64, u8>, bits: nat)
    requires bits < 64
    requires TableWithin(table, bits)
    requires |table| == Pow2(bits)
    ensures forall k: u64 :: k < Pow2(bits) ==> k in table
  {
    KeysCoverRange(table.Keys, Pow2(bits));
  }

  /**
   * What a finished `fill_random` leaves: a masked 0/1 table of at most
   * `numKeys` keys; a full table needed no more keys than the mask admits; a
   * table short of `numKeys` keys means the supply ran out.
   */
  lemma FillOutcome(words: seq<u64>, pos: nat, bits: nat, numKeys: nat)
    requires pos <= |words|
    ensures var f := FillFrom(map[], words, pos, bits, numKeys);
      TableWithin(f.table, bits) && |f.table| <= numKeys &&
      (|f.table| == numKeys ==> numKeys <= KeyMask(bits) + 1) &&
      (|f.table| < numKeys ==> f.next + 2 > |words|)
  {
    FillWithin(map[], words, pos, bits, numKeys);
    FillSize(map[], words, pos, bits, numKeys);
    FullTableFitsMask(FillFrom(map[], words, pos, bits, numKeys).table, bits);
  }

  /** With enough words, `randomize`'s fill of `2^bits` keys is total: every key below `2^bits` is in the table. */
  lemma FullFillIsTotal(words: seq<u64>, pos: nat, bits: nat)
    requires pos <= |words| && bits < 64
    requires FillFrom(map[], words, pos, bits, Pow2(bits)).next + 2 <= |words|
    ensures forall k: u64 :: k < Pow2(bits) ==> k in FillFrom(map[], words, pos, bits, Pow2(bits)).table
  {
    FillOutcome(words, pos, bits, Pow2(bits));
    FullTableIsTotal(FillFrom(map[], words, pos, bits, Pow2(bits)).table, bits);
  }

  /** `get_new_cell`: the value of the first table in list order that has the key, else 0. */
  function FirstMatch(tables: seq<map<u64, u8>>, key: u64): u8
  {
    if tables == [] then 0
    else if key in tables[0] then tables[0][key]
    else FirstMatch(tables[1..], key)
  }

  /** With no table holding the key, the answer is 0. */
  lemma {:induction false} FirstMatchMiss(tables: seq<map<u64, u8>>, key: u64)
    requires forall i :: 0 <= i < |tables| ==> key !in tables[i]
    ensures FirstMatch(tables, key) == 0
  {
    if tables != [] {
      assert forall i :: 0 <= i < |tables| - 1 ==> tables[1..][i] == tables[i + 1];
      FirstMatchMiss(tables[1..], key);
    }
  }

  /** The first table holding the key decides. */
  lemma {:induction false} FirstMatchIsFirst(tables: seq<map<u64, u8>>, key: u64, i: nat)
    requires i < |tables| && key in tables[i]
    requires forall j :: 0 <= j < i ==> key !in tables[j]
    ensures FirstMatch(tables, key) == tables[i][key]
  {
    if i > 0 {
      assert key !in tables[0];
      assert forall j :: 0 <= j < i - 1 ==> tables[1..][j] == tables[j + 1];
      FirstMatchIsFirst(tables[1..], key, i - 1);
    }
  }

  /** Every table maps keys to 0 or 1. */
  ghost predicate BinaryTables(tables: seq<map<u64, u8>>) {
    forall i, k :: 0 <= i < |tables| && k in tables[i] ==> tables[i][k] <= 1
  }

  /** With 0/1 outputs in every table, the looked-up state is 0 or 1. */
  lemma {:induction false} FirstMatchBinary(tables: seq<map<u64, u8>>, key: u64)
    requires BinaryTables(tables)
    ensures FirstMatch(tables, key) <= 1
  {
    if tables != [] && key !in tables[0] {
      FirstMatchBinary(tables[1..], key);
    }
  }

  /** The tables `RulesCollection::randomize` leaves behind and the position the generator stopped at. */
  datatype Fills = Fills(tables: seq<map<u64, u8>>, next: nat)

  /**
   * `randomize`: each rule in turn refills its own table from the one shared
   * generator, with `bits[i]` the bit width of rule `i`.
   */
  function FillEach(bits: seq<nat>, rng: seq<u64>, pos: nat, numKeys: nat): (f: Fills)
    requires pos <= |rng|
    ensures |f.tables| == |bits| && pos <= f.next <= |rng|
    decreases |bits|
  {
    if bits == [] then Fills([], pos)
    else
      var first := FillFrom(map[], rng, pos, bits[0], numKeys);
      var rest := FillEach(bits[1..], rng, first.next, numKeys);
      Fills([first.table] + rest.tables, rest.next)
  }

  /** `table` is the fill from position `from`, and the generator stopped at `to`. */
  ghost predicate FilledBetween(table: map<u64, u8>, bits: nat, rng: seq<u64>, numKeys: nat, from: nat, to: nat) {
    from <= |rng| && FillFrom(map[], rng, from, bits, numKeys) == Fill(table, to)
  }

  /**
   * The rules filled one after the other from one generator: table `j` is the
   * fill from position `cuts[j]`, which stopped at `cuts[j + 1]`, where the
   * next rule takes over.
   */
  ghost predicate FilledInTurn(tables: seq<map<u64, u8>>, bits: seq<nat>, rng: seq<u64>, numKeys: nat, cuts: seq<nat>) {
    |tables| == |bits| && |cuts| == |bits| + 1 && cuts[0] <= |rng| &&
    forall j :: 0 <= j < |bits| ==> FilledBetween(tables[j], bits[j], rng, numKeys, cuts[j], cuts[j + 1])
  }

  /** One more rule filled from where the last one stopped extends the filling in turn. */
  lemma FilledInTurnSnoc(tables: seq<map<u64, u8>>, bits: seq<nat>, rng: seq<u64>, numKeys: nat, cuts: seq<nat>,
                         table: map<u64, u8>, b: nat, cut: nat)
    requires FilledInTurn(tables, bits, rng, numKeys, cuts)
    requires FilledBetween(table, b, rng, numKeys, cuts[|bits|], cut)
    ensures FilledInTurn(tables + [table], bits + [b], rng, numKeys, cuts + [cut])
  {
    var tables', bits', cuts' := tables + [table], bits + [b], cuts + [cut];
    forall j | 0 <= j < |bits'|
      ensures FilledBetween(tables'[j], bits'[j], rng, numKeys, cuts'[j], cuts'[j + 1])
    {
      if j < |bits| {
        assert FilledBetween(tables[j], bits[j], rng, numKeys, cuts[j], cuts[j + 1]);
      }
    }
  }

  /** The same step, stated for the first `i` and `i + 1` rules of a list. */
  lemma FilledInTurnStep(tables: seq<map<u64, u8>>, bits: seq<nat>, i: nat, rng: seq<u64>, numKeys: nat, cuts: seq<nat>,
                         table: map<u64, u8>, cut: nat)
    requires i < |bits| && FilledInTurn(tables, bits[..i], rng, numKeys, cuts)
    requires FilledBetween(table, bits[i], rng, numKeys, cuts[i], cut)
    ensures FilledInTurn(tables + [table], bits[..i + 1], rng, numKeys, cuts + [cut])
  {
    FilledInTurnSnoc(tables, bits[..i], rng, numKeys, cuts, table, bits[i], cut);
    assert bits[..i + 1] == bits[..i] + [bits[i]];
  }

  /** Dropping the first rule leaves the later rules filled in turn from the second cut on. */
  lemma FilledInTurnTail(tables: seq<map<u64, u8>>, bits: seq<nat>, rng: seq<u64>, numKeys: nat, cuts: seq<nat>)
    requires FilledInTurn(tables, bits, rng, numKeys, cuts) && bits != []
    ensures FilledInTurn(tables[1..], bits[1..], rng, numKeys, cuts[1..])
  {
    assert FilledBetween(tables[0], bits[0], rng, numKeys, cuts[0], cuts[1]);
    forall j | 0 <= j < |bits| - 1
      ensures FilledBetween(tables[1..][j], bits[1..][j], rng, numKeys, cuts[1..][j], cuts[1..][j + 1])
    {
      assert FilledBetween(tables[j + 1], bits[j + 1], rng, numKeys, cuts[j + 1], cuts[j + 2]);
    }
  }

  /** Filling in turn from position `cuts[0]` is exactly `FillEach` from that position. */
  lemma {:induction false} FilledInTurnIsFillEach(tables: seq<map<u64, u8>>, bits: seq<nat>, rng: seq<u64>, numKeys: nat, cuts: seq<nat>)
    requires FilledInTurn(tables, bits, rng, numKeys, cuts)
    ensures FillEach(bits, rng, cuts[0], numKeys) == Fills(tables, cuts[|bits|])
    decreases |bits|
  {
    if bits != [] {
      assert FilledBetween(tables[0], bits[0], rng, numKeys, cuts[0], cuts[1]);
      FilledInTurnTail(tables, bits, rng, numKeys, cuts);
      FilledInTurnIsFillEach(tables[1..], bits[1..], rng, numKeys, cuts[1..]);
      assert tables == [tables[0]] + tables[1..];
    }
  }

  /** After filling in turn, every table is masked, binary and within `numKeys` keys. */
  lemma FilledInTurnWithin(tables: seq<map<u64, u8>>, bits: seq<nat>, rng: seq<u64>, numKeys: nat, cuts: seq<nat>)
    requires FilledInTurn(tables, bits, rng, numKeys, cuts)
    ensures forall j :: 0 <= j < |bits| ==> TableWithin(tables[j], bits[j]) && |tables[j]| <= numKeys
  {
    forall j | 0 <= j < |bits|
      ensures TableWithin(tables[j], bits[j]) && |tables[j]| <= numKeys
    {
      assert FilledBetween(tables[j], bits[j], rng, numKeys, cuts[j], cuts[j + 1]);
      FillOutcome(rng, cuts[j], bits[j], numKeys);
    }
  }

  class HashRule {
    var hashMap: map<u64, u8>
    var neighborhoodW: nat
    var neighborhoodH: nat

    constructor (neighborhoodW: nat, neighborhoodH: nat)
      ensures hashMap == map[]
      ensures this.neighborhoodW == neighborhoodW && this.neighborhoodH == neighborhoodH
    {
      hashMap := map[];
      this.neighborhoodW := neighborhoodW;
      this.neighborhoodH := neighborhoodH;
    }

    /** The number of key bits this rule's neighbourhood spans. */
    function Bits(): nat
      reads this
    {
      neighborhoodW * neighborhoodH
    }

    /** `Rule::apply`: the mapped state, if the key has one. */
    function Apply(neighborhood: u64): (r: Option<u8>)
      reads this
      ensures r.Some? <==> neighborhood in hashMap
      ensures r.Some? ==> r.value == hashMap[neighborhood]
    {
      if neighborhood in hashMap then Some(hashMap[neighborhood]) else None
    }

    /** Changes the dimensions only; the table is left as it is. */
    method SetNeighborhoodSize(neighborhoodW: nat, neighborhoodH: nat)
      modifies this
      ensures hashMap == old(hashMap)
      ensures this.neighborhoodW == neighborhoodW && this.neighborhoodH == neighborhoodH
    {
      this.neighborhoodW := neighborhoodW;
      this.neighborhoodH := neighborhoodH;
    }

    method AddMapping(neighborhood: u64, value: u8)
      modifies this
      ensures hashMap == old(hashMap)[neighborhood := value]
      ensures Apply(neighborhood) == Some(value)
      ensures forall k :: k != neighborhood ==> Apply(k) == old(Apply(k))
      ensures neighborhoodW == old(neighborhoodW) && neighborhoodH == old(neighborhoodH)
    {
      hashMap := hashMap[neighborhood := value];
    }

    method Reset()
      modifies this
      ensures hashMap == map[]
      ensures forall k :: Apply(k) == None
      ensures neighborhoodW == old(neighborhoodW) && neighborhoodH == old(neighborhoodH)
    {
      hashMap := map[];
    }

    /**
     * `fill_random`: clear the table, then insert random masked keys (first
     * draw of a key wins) until it holds `numKeys` keys or the supply runs out.
     * The generator starts at position `pos`; `next` is where it stops.
     */
    method FillRandom(rng: seq<u64>, pos: nat, numKeys: nat) returns (next: nat)
      requires pos <= |rng|
      modifies this
      ensures Fill(hashMap, next) == FillFrom(map[], rng, pos, Bits(), numKeys)
      ensures neighborhoodW == old(neighborhoodW) && neighborhoodH == old(neighborhoodH)
      ensures TableWithin(hashMap, Bits())
      ensures |hashMap| <= numKeys
      ensures |hashMap| == numKeys ==> numKeys <= KeyMask(Bits()) + 1
      ensures |hashMap| < numKeys ==> next + 2 > |rng|
    {
      var bits := neighborhoodW * neighborhoodH;
      ghost var whole := FillFrom(map[], rng, pos, bits, numKeys);
      hashMap := map[];
      next := pos;
      while |hashMap| < numKeys && next + 2 <= |rng|
        invariant pos <= next <= |rng|
        invariant neighborhoodW == old(neighborhoodW) && neighborhoodH == old(neighborhoodH)
        invariant FillFrom(hashMap, rng, next, bits, numKeys) == whole
        decreases |rng| - next
      {
        hashMap := OrInsert(hashMap, rng[next], rng[next + 1], bits);
        next := next + 2;
      }
      FillOutcome(rng, pos, bits, numKeys);
    }
  }

  class RulesCollection {
    var neighborhoodW: nat
    var neighborhoodH: nat
    var rules: seq<HashRule>

    /** The objects the collection owns: itself and its rules. */
    ghost function Repr(): set<object>
      reads this
    {
      {this} + set r: object | r in rules
    }

    /** Rules are owned values of the vector, so no rule appears twice. */
    ghost predicate Valid()
      reads this
    {
      forall i, j :: 0 <= i < j < |rules| ==> rules[i] != rules[j]
    }

    /** The rules' tables, in list order. */
    ghost function Tables(): (t: seq<map<u64, u8>>)
      reads this, rules
      ensures |t| == |rules|
      ensures forall i :: 0 <= i < |rules| ==> t[i] == rules[i].hashMap
    {
      seq(|rules|, i reads this, rules requires 0 <= i < |rules| => rules[i].hashMap)
    }

    /** The rules' bit widths, in list order. */
    ghost function RuleBits(): (b: seq<nat>)
      reads this, rules
      ensures |b| == |rules|
      ensures forall i :: 0 <= i < |rules| ==> b[i] == rules[i].Bits()
    {
      seq(|rules|, i reads this, rules requires 0 <= i < |rules| => rules[i].Bits())
    }

    /** Every rule has the collection's dimensions. */
    ghost predicate Uniform()
      reads this, rules
    {
      forall i :: 0 <= i < |rules| ==> rules[i].neighborhoodW == neighborhoodW && rules[i].neighborhoodH == neighborhoodH
    }

    /** Every rule maps keys to 0 or 1. */
    ghost predicate BinaryOutputs()
      reads this, rules
    {
      BinaryTables(Tables())
    }

    /** The number of patterns `randomize` asks every rule for: `1 << (w * h)`. */
    function TotalPatterns(): nat
      reads this
    {
      Pow2(neighborhoodW * neighborhoodH)
    }

    /** `RulesCollection::new`: one rule of the given size, randomized from its own generator. */
    constructor (neighborhoodW: nat, neighborhoodH: nat, rng: seq<u64>)
      requires neighborhoodW * neighborhoodH < 64
      ensures Valid() && fresh(Repr())
      ensures this.neighborhoodW == neighborhoodW && this.neighborhoodH == neighborhoodH
      ensures |rules| == 1 && Uniform() && BinaryOutputs()
      ensures Tables() == [FillFrom(map[], rng, 0, neighborhoodW * neighborhoodH, Pow2(neighborhoodW * neighborhoodH)).table]
    {
      this.neighborhoodW := neighborhoodW;
      this.neighborhoodH := neighborhoodH;
      rules := [];
      new;
      var rule := new HashRule(neighborhoodW, neighborhoodH);
      AddRule(rule);
      var _, _ := Randomize(rng, 0);
    }

    method AddRule(rule: HashRule)
      requires Valid() && rule !in rules
      modifies this
      ensures Valid()
      ensures rules == old(rules) + [rule]
      ensures neighborhoodW == old(neighborhoodW) && neighborhoodH == old(neighborhoodH)
    {
      rules := rules + [rule];
    }

    /**
     * `randomize`: every rule, in list order, refills its table with
     * `1 << (w * h)` keys from the shared generator. The shift needs `w * h < 64`.
     */
    method Randomize(rng: seq<u64>, pos: nat) returns (next: nat, ghost cuts: seq<nat>)
      requires Valid() && neighborhoodW * neighborhoodH < 64 && pos <= |rng|
      modifies rules
      ensures Valid()
      ensures RuleBits() == old(RuleBits())
      ensures forall i :: 0 <= i < |rules| ==>
        rules[i].neighborhoodW == old(rules[i].neighborhoodW) && rules[i].neighborhoodH == old(rules[i].neighborhoodH)
      ensures FilledInTurn(Tables(), RuleBits(), rng, TotalPatterns(), cuts) && cuts[0] == pos && cuts[|rules|] == next
      ensures BinaryOutputs() && pos <= next <= |rng|
    {
      var total := Pow2(neighborhoodW * neighborhoodH);
      ghost var bits := RuleBits();
      ghost var tables: seq<map<u64, u8>> := [];
      next := pos;
      cuts := [pos];
      var i := 0;
      while i < |rules|
        invariant 0 <= i <= |rules| && pos <= next <= |rng|
        invariant |tables| == i && |cuts| == i + 1 && cuts[0] == pos && cuts[i] == next
        invariant FilledInTurn(tables, bits[..i], rng, total, cuts)
        invariant forall j :: 0 <= j < i ==> rules[j].hashMap == tables[j]
        invariant forall j :: 0 <= j < |rules| ==>
          rules[j].neighborhoodW == old(rules[j].neighborhoodW) && rules[j].neighborhoodH == old(rules[j].neighborhoodH)
      {
        var rule := rules[i];
        ghost var before := tables;
        var n := rule.FillRandom(rng, next, total);
        FilledInTurnStep(tables, bits, i, rng, total, cuts, rule.hashMap, n);
        tables := tables + [rule.hashMap];
        forall j | 0 <= j <= i
          ensures rules[j].hashMap == tables[j]
        {
          if j < i {
            assert rules[j] != rule && tables[j] == before[j];
          }
        }
        cuts := cuts + [n];
        next := n;
        i := i + 1;
      }
      assert bits[..i] == bits;
      FilledInTurnWithin(tables, bits, rng, total, cuts);
    }

    /** Resizes the collection and every rule, then re-randomizes. */
    method SetNeighborhoodSize(neighborhoodW: nat, neighborhoodH: nat, rng: seq<u64>, pos: nat) returns (next: nat, ghost cuts: seq<nat>)
      requires Valid() && neighborhoodW * neighborhoodH < 64 && pos <= |rng|
      modifies Repr()
      ensures Valid() && rules == old(rules)
      ensures this.neighborhoodW == neighborhoodW && this.neighborhoodH == neighborhoodH
      ensures Uniform() && BinaryOutputs()
      ensures FilledInTurn(Tables(), RuleBits(), rng, TotalPatterns(), cuts) && cuts[0] == pos && cuts[|rules|] == next
    {
      this.neighborhoodW := neighborhoodW;
      this.neighborhoodH := neighborhoodH;
      var i := 0;
      while i < |rules|
        invariant 0 <= i <= |rules| && rules == old(rules)
        invariant this.neighborhoodW == neighborhoodW && this.neighborhoodH == neighborhoodH
        invariant forall j :: 0 <= j < i ==> rules[j].neighborhoodW == neighborhoodW && rules[j].neighborhoodH == neighborhoodH
      {
        rules[i].SetNeighborhoodSize(neighborhoodW, neighborhoodH);
        i := i + 1;
      }
      next, cuts := Randomize(rng, pos);
    }

    /** `get_new_cell`: first match wins, 0 when no rule has the key. */
    method GetNewCell(neighborhood: u64) returns (cell: u8)
      ensures cell == FirstMatch(Tables(), neighborhood)
    {
      var i := 0;
      while i < |rules|
        invariant 0 <= i <= |rules|
        invariant FirstMatch(Tables()[i..], neighborhood) == FirstMatch(Tables(), neighborhood)
      {
        var v := rules[i].Apply(neighborhood);
        if v.Some? {
          return v.value;
        }
        assert Tables()[i..][1..] == Tables()[i + 1..];
        i := i + 1;
      }
      return 0;
    }
  }
}
