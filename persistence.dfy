/** The live-update handoff: the outgoing driver publishes its three structures
    to the data store under three keys, and the incoming driver retrieves
    each one and deletes it. */
module Persistence {
  import opened Automaton
  import opened Status

  const KEY_CURRENT: string := "dfa_current_state"
  const KEY_ACCEPTING: string := "dfa_accepting_states"
  const KEY_TRANSITION: string := "dfa_transition"

  /** The data store's memory entries. */
  type Store = map<string, seq<Byte>>

  datatype Option<T> = None | Some(value: T)

  /** Which step of a save or a restore the store fails, and with what code.
      Save has steps 0..2 (three publishes); restore has steps 0..5 (retrieve
      and delete, for each of the three keys in turn). */
  datatype StoreFault = NoStoreFault | StoreFailAt(step: nat, code: ErrorCode)

  function Injected(f: StoreFault, step: nat): (r: Option<ErrorCode>)
    ensures r.Some? <==> f.StoreFailAt? && f.step == step
  {
    if f.StoreFailAt? && f.step == step then Some(f.code) else None
  }

  /** A publish (with overwrite) fails only when the store fails it. */
  function PublishRc(inj: Option<ErrorCode>): (rc: int)
    ensures rc == OK <==> inj.None?
  {
    if inj.Some? then inj.value else OK
  }

  /** A retrieve or a delete fails when the store fails it, or with ESRCH when
      there is no entry under the key. */
  function LookupRc(m: Store, key: string, inj: Option<ErrorCode>): (rc: int)
    ensures rc == OK <==> inj.None? && key in m
  {
    if inj.Some? then inj.value else if key !in m then ESRCH else OK
  }

  /** What a retrieve into a buffer of `|dst|` bytes leaves there: the first
      bytes of the blob, and the buffer's own bytes past the blob's end. */
  function Overlay(dst: seq<Byte>, blob: seq<Byte>): (r: seq<Byte>)
    ensures |r| == |dst|
    ensures forall i :: 0 <= i < |r| ==> r[i] == if i < |blob| then blob[i] else dst[i]
  {
    if |blob| >= |dst| then blob[..|dst|] else blob + dst[|blob|..]
  }

  /** A blob of exactly the buffer's size replaces the buffer. */
  lemma OverlayExact(dst: seq<Byte>, blob: seq<Byte>)
    requires |blob| == |dst|
    ensures Overlay(dst, blob) == blob
  {
  }

  datatype SaveOutcome = SaveOutcome(store: Store, rc: int)

  /** The save callback: publish the current state, the accepting flags and
      the table, stopping at the first failure. It answers OK exactly when none
      of its three publishes fails, adds no key but the three, and leaves
      every other entry alone. */
  function Save(m: Store, s: Snapshot, f: StoreFault): (r: SaveOutcome)
    ensures r.rc == OK <==> !(f.StoreFailAt? && f.step < 3)
    ensures r.store.Keys <= m.Keys + {KEY_CURRENT, KEY_ACCEPTING, KEY_TRANSITION}
    ensures forall k :: k in m && k !in {KEY_CURRENT, KEY_ACCEPTING, KEY_TRANSITION} ==> k in r.store && r.store[k] == m[k]
  {
    var rc0 := PublishRc(Injected(f, 0));
    if rc0 != OK then SaveOutcome(m, rc0) else
    var m0 := m[KEY_CURRENT := [s.current]];
    var rc1 := PublishRc(Injected(f, 1));
    if rc1 != OK then SaveOutcome(m0, rc1) else
    var m1 := m0[KEY_ACCEPTING := s.accepting];
    var rc2 := PublishRc(Injected(f, 2));
    if rc2 != OK then SaveOutcome(m1, rc2) else
    SaveOutcome(m1[KEY_TRANSITION := s.table], OK)
  }

  datatype RestoreOutcome = RestoreOutcome(snap: Snapshot, store: Store, rc: int)

  /** The restore routine, into the structures `s`: for each key in turn,
      retrieve it into its structure and delete it, stopping at the first
      failure. */
  function Restore(m: Store, s: Snapshot, f: StoreFault): (r: RestoreOutcome)
    requires s.WellFormed()
    ensures r.snap.WellFormed()
  {
    var rc0 := LookupRc(m, KEY_CURRENT, Injected(f, 0));
    if rc0 != OK then RestoreOutcome(s, m, rc0) else
    var s0 := s.(current := Overlay([s.current], m[KEY_CURRENT])[0]);
    var rc1 := LookupRc(m, KEY_CURRENT, Injected(f, 1));
    if rc1 != OK then RestoreOutcome(s0, m, rc1) else
    var m1 := m - {KEY_CURRENT};
    var rc2 := LookupRc(m1, KEY_ACCEPTING, Injected(f, 2));
    if rc2 != OK then RestoreOutcome(s0, m1, rc2) else
    var s2 := s0.(accepting := Overlay(s0.accepting, m1[KEY_ACCEPTING]));
    var rc3 := LookupRc(m1, KEY_ACCEPTING, Injected(f, 3));
    if rc3 != OK then RestoreOutcome(s2, m1, rc3) else
    var m3 := m1 - {KEY_ACCEPTING};
    var rc4 := LookupRc(m3, KEY_TRANSITION, Injected(f, 4));
    if rc4 != OK then RestoreOutcome(s2, m3, rc4) else
    var s4 := s2.(table := Overlay(s2.table, m3[KEY_TRANSITION]));
    var rc5 := LookupRc(m3, KEY_TRANSITION, Injected(f, 5));
    if rc5 != OK then RestoreOutcome(s4, m3, rc5) else
    RestoreOutcome(s4, m3 - {KEY_TRANSITION}, OK)
  }

  /** The store after the first `j` publishes of a save of `s`. */
  function PublishFirst(m: Store, s: Snapshot, j: nat): Store
    requires j <= 3
  {
    if j == 0 then m
    else if j == 1 then m[KEY_CURRENT := [s.current]]
    else if j == 2 then PublishFirst(m, s, 1)[KEY_ACCEPTING := s.accepting]
    else PublishFirst(m, s, 2)[KEY_TRANSITION := s.table]
  }

  /** A save performs its publishes in order up to the first failure, and
      none after it; with no failure it publishes all three and answers OK. */
  lemma SaveStopsAtFirstFailure(m: Store, s: Snapshot, f: StoreFault)
    ensures var r := Save(m, s, f);
      if f.StoreFailAt? && f.step < 3 then r.store == PublishFirst(m, s, f.step) && r.rc == f.code
      else r.store == PublishFirst(m, s, 3) && r.rc == OK
  {
    assert PublishFirst(m, s, 2) == m[KEY_CURRENT := [s.current]][KEY_ACCEPTING := s.accepting];
  }

  /** A save publishes every structure under its own key and leaves every
      other entry alone. */
  lemma SavePublishesAll(m: Store, s: Snapshot)
    ensures var r := Save(m, s, NoStoreFault);
      && r.rc == OK
      && r.store.Keys == m.Keys + {KEY_CURRENT, KEY_ACCEPTING, KEY_TRANSITION}
      && r.store[KEY_CURRENT] == [s.current]
      && r.store[KEY_ACCEPTING] == s.accepting
      && r.store[KEY_TRANSITION] == s.table
      && (forall k :: k in m && k !in {KEY_CURRENT, KEY_ACCEPTING, KEY_TRANSITION} ==> r.store[k] == m[k])
  {
  }

  /** The handoff round trip: restoring, into any structures, what a save of
      `s` published gives back `s` exactly, and consumes the three entries
      while leaving every other entry of the store as it was. */
  lemma RoundTrip(m: Store, s: Snapshot, into: Snapshot)
    requires s.WellFormed() && into.WellFormed()
    ensures Restore(Save(m, s, NoStoreFault).store, into, NoStoreFault) ==
              RestoreOutcome(s, m - {KEY_CURRENT, KEY_ACCEPTING, KEY_TRANSITION}, OK)
  {
    var published := Save(m, s, NoStoreFault).store;
    OverlayExact([into.current], [s.current]);
    OverlayExact(into.accepting, s.accepting);
    OverlayExact(into.table, s.table);
    assert published - {KEY_CURRENT} - {KEY_ACCEPTING} - {KEY_TRANSITION}
        == m - {KEY_CURRENT, KEY_ACCEPTING, KEY_TRANSITION};
  }

  /** The first step of a restore from `m` that fails, whatever the cause: an
      injected failure, or a retrieve whose key is missing; 6 when every step
      succeeds. A missing key can only stop a retrieve (steps 0, 2 and 4): the
      delete after it finds the key the retrieve just found. */
  function RestoreFailure(m: Store, f: StoreFault): (j: nat)
    ensures j <= 6
    ensures f.StoreFailAt? ==> j <= f.step
    ensures j > 0 ==> KEY_CURRENT in m
    ensures j > 2 ==> KEY_ACCEPTING in m
    ensures j > 4 ==> KEY_TRANSITION in m
    ensures j < 6 && !(f.StoreFailAt? && f.step == j) ==>
              (j == 0 && KEY_CURRENT !in m) || (j == 2 && KEY_ACCEPTING !in m) || (j == 4 && KEY_TRANSITION !in m)
  {
    if Injected(f, 0).Some? || KEY_CURRENT !in m then 0
    else if Injected(f, 1).Some? then 1
    else if Injected(f, 2).Some? || KEY_ACCEPTING !in m then 2
    else if Injected(f, 3).Some? then 3
    else if Injected(f, 4).Some? || KEY_TRANSITION !in m then 4
    else if Injected(f, 5).Some? then 5
    else 6
  }

  /** A restore stops at its first failing step, whatever the cause: the
      structures whose retrieve came before it are restored, the keys whose
      delete came before it are gone, the rest is untouched, and the answer is
      the injected code, or ESRCH for a missing key. */
  lemma RestoreStopsAtFirstFailure(m: Store, s: Snapshot, f: StoreFault)
    requires s.WellFormed()
    ensures var j := RestoreFailure(m, f); var r := Restore(m, s, f);
      && r.rc == (if j == 6 then OK else if f.StoreFailAt? && f.step == j then f.code else ESRCH)
      && r.snap.current == (if j > 0 then Overlay([s.current], m[KEY_CURRENT])[0] else s.current)
      && r.snap.accepting == (if j > 2 then Overlay(s.accepting, m[KEY_ACCEPTING]) else s.accepting)
      && r.snap.table == (if j > 4 then Overlay(s.table, m[KEY_TRANSITION]) else s.table)
      && r.store == m - (if j > 1 then {KEY_CURRENT} else {})
                      - (if j > 3 then {KEY_ACCEPTING} else {})
                      - (if j > 5 then {KEY_TRANSITION} else {})
  {
  }

  /** A save that stopped after its first one or two publishes, over a store
      holding none of the three keys, leaves a store from which a restore
      takes the structures that were published, stops with ESRCH at the first
      key that is missing, and leaves the store as it was before the save. */
  lemma RestoreAfterPartialSave(m: Store, s: Snapshot, into: Snapshot, j: nat, c: ErrorCode)
    requires s.WellFormed() && into.WellFormed() && 1 <= j <= 2
    requires KEY_CURRENT !in m && KEY_ACCEPTING !in m && KEY_TRANSITION !in m
    ensures var saved := Save(m, s, StoreFailAt(j, c)).store;
      var r := Restore(saved, into, NoStoreFault);
      && RestoreFailure(saved, NoStoreFault) == 2 * j
      && r.rc == ESRCH
      && r.snap == (if j == 1 then into.(current := s.current)
                    else into.(current := s.current, accepting := s.accepting))
      && r.store == m
  {
    OverlayExact(into.accepting, s.accepting);
    if j == 1 {
      assert m[KEY_CURRENT := [s.current]] - {KEY_CURRENT} == m;
    } else {
      assert m[KEY_CURRENT := [s.current]][KEY_ACCEPTING := s.accepting] - {KEY_CURRENT} - {KEY_ACCEPTING} == m;
    }
  }

  /** With nothing published under the first key (a live update that was not
      preceded by a save), a restore answers ESRCH and changes nothing. */
  lemma RestoreWithoutSave(m: Store, s: Snapshot)
    requires s.WellFormed() && KEY_CURRENT !in m
    ensures Restore(m, s, NoStoreFault) == RestoreOutcome(s, m, ESRCH)
  {
  }
}
