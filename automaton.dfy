/** The automaton's data model: states and symbols are bytes, the transition
    function is a dense table of 256 x 256 successor states, and the accepting
    flags are one byte per state. */
module Automaton {

  /** A state or an input symbol: one unsigned byte. */
  type Byte = b: int | 0 <= b < 256

  const STATES: nat := 256
  const TABLE_SIZE: nat := 65536

  /** The transition table, row-major: the successor of state `s` on symbol `a`
      sits at `s * 256 + a`, which is how a `[256][256]` byte matrix lies in
      memory and therefore in the blob the driver publishes. */
  type Table = t: seq<Byte> | |t| == TABLE_SIZE witness seq(TABLE_SIZE, _ => 0)

  /** The smaller of two sizes. */
  function Min(a: nat, b: nat): (r: nat)
    ensures r <= a && r <= b
    ensures r == a || r == b
  {
    if a < b then a else b
  }

  /** Where the successor of `(s, a)` is stored: every pair has its own cell
      inside the table, and the cell gives the pair back. */
  function Index(s: Byte, a: Byte): (k: nat)
    ensures k < TABLE_SIZE
    ensures k / STATES == s && k % STATES == a
  {
    s * STATES + a
  }

  /** One transition: the cell in row `s`, column `a` of the table. */
  function Next(t: Table, s: Byte, a: Byte): (r: Byte)
    ensures forall k :: 0 <= k < TABLE_SIZE && k / STATES == s && k % STATES == a ==> t[k] == r
  {
    t[Index(s, a)]
  }

  /** The state reached from `s` by consuming `w` from left to right: `s`
      itself for no input, and otherwise a successor recorded in the table. */
  function Run(t: Table, s: Byte, w: seq<Byte>): (r: Byte)
    ensures w == [] ==> r == s
    ensures w != [] ==> r in t
    decreases |w|
  {
    if w == [] then s else Run(t, Next(t, s, w[0]), w[1..])
  }

  /** Feeding `u` and then `v` is feeding `u + v`. */
  lemma {:induction false} RunConcat(t: Table, s: Byte, u: seq<Byte>, v: seq<Byte>)
    ensures Run(t, s, u + v) == Run(t, Run(t, s, u), v)
    decreases |u|
  {
    if u == [] {
      assert u + v == v;
    } else {
      assert (u + v)[0] == u[0];
      assert (u + v)[1..] == u[1..] + v;
      RunConcat(t, Next(t, s, u[0]), u[1..], v);
    }
  }

  /** Consuming one more symbol is one more transition. */
  lemma RunSnoc(t: Table, s: Byte, w: seq<Byte>, a: Byte)
    ensures Run(t, s, w + [a]) == Next(t, Run(t, s, w), a)
  {
    RunConcat(t, s, w, [a]);
  }

  /** The fold as a driver with an `n`-byte staging buffer performs it: a chunk
      of at most `n` symbols at a time, each chunk continuing from the state the
      previous one reached. Like the plain fold, it stays at `s` for no input
      and otherwise ends in a successor recorded in the table. */
  function ChunkedRun(t: Table, s: Byte, w: seq<Byte>, n: nat): (r: Byte)
    requires n > 0
    ensures w == [] ==> r == s
    ensures w != [] ==> r in t
    decreases |w|
  {
    if w == [] then s
    else
      var c := Min(n, |w|);
      ChunkedRun(t, Run(t, s, w[..c]), w[c..], n)
  }

  /** The size of the staging buffer is invisible: whatever the chunk size,
      the chunked fold reaches the state the plain fold reaches. */
  lemma {:induction false} ChunkingIsInvisible(t: Table, s: Byte, w: seq<Byte>, n: nat)
    requires n > 0
    ensures ChunkedRun(t, s, w, n) == Run(t, s, w)
    decreases |w|
  {
    if w != [] {
      var c := Min(n, |w|);
      assert w == w[..c] + w[c..];
      RunConcat(t, s, w[..c], w[c..]);
      ChunkingIsInvisible(t, Run(t, s, w[..c]), w[c..], n);
    }
  }

  /** The three structures of the engine, as values. */
  datatype Snapshot = Snapshot(current: Byte, accepting: seq<Byte>, table: seq<Byte>)
  {
    predicate WellFormed()
    {
      |accepting| == STATES && |table| == TABLE_SIZE
    }
  }

  /** Everything zero: the state of a freshly initialised engine. Every pair
      leads to state 0 and no state accepts. */
  function Zero(): (z: Snapshot)
    ensures z.WellFormed() && z.current == 0
    ensures forall q: Byte :: z.accepting[q] == 0
    ensures forall k :: 0 <= k < TABLE_SIZE ==> z.table[k] == 0
  {
    Snapshot(0, seq(STATES, _ => 0), seq(TABLE_SIZE, _ => 0))
  }

  const ACCEPT_SENTINEL: Byte := 'Y' as int
  const REJECT_SENTINEL: Byte := 'N' as int

  /** The byte a poll delivers: the accept sentinel exactly when the flag of
      the current state is 1 (any other flag value rejects). */
  function Verdict(s: Snapshot): (v: Byte)
    requires s.WellFormed()
    ensures v == ACCEPT_SENTINEL <==> s.accepting[s.current] == 1
    ensures v == ACCEPT_SENTINEL || v == REJECT_SENTINEL
  {
    if s.accepting[s.current] == 1 then ACCEPT_SENTINEL else REJECT_SENTINEL
  }

  /** `n` copies of `b`. */
  function Fill(n: nat, b: Byte): (r: seq<Byte>)
    ensures |r| == n && forall i :: 0 <= i < n ==> r[i] == b
  {
    seq(n, _ => b)
  }

  // ---- Plain `char` indices on a target where `char` is signed ----

  /** The value a byte has when read through a signed `char`. */
  function SignedChar(b: Byte): (v: int)
    ensures -128 <= v < 128
    ensures v % 256 == b % 256
  {
    if b < 128 then b else b - 256
  }

  /** The cell `transition[s][a]` addresses when `s` and `a` are signed `char`s. */
  function SignedIndex(s: Byte, a: Byte): int
  {
    SignedChar(s) * STATES + SignedChar(a)
  }

  /** With signed `char` indexing, the lookup hits the intended cell exactly
      when both the state and the symbol are below 128. */
  lemma SignedIndexAgreesIff(s: Byte, a: Byte)
    ensures SignedIndex(s, a) == Index(s, a) <==> s < 128 && a < 128
  {
  }

  /** Two concrete consequences: from state 0 the symbol 200 addresses a cell
      before the table, and from state 1 it reads row 0 instead of row 1. */
  lemma SignedIndexMisses()
    ensures SignedIndex(0, 200) < 0
    ensures SignedIndex(1, 200) == Index(0, 200)
  {
  }
}
