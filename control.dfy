/** The control requests (`ioctl`) that edit the automaton, as a function on
    the engine's three structures. */
module Control {
  import opened Automaton
  import opened Status

  /** The request codes the driver recognises, and any other code. */
  datatype Request = Reset | AddTransition | Accept | Reject | Unsupported(request: nat)

  /** How many payload bytes a request copies from the caller: a
      (state, symbol, successor) triple for ADD, one state for ACCEPT and
      REJECT, none for RESET or an unknown request. */
  function PayloadSize(req: Request): (n: nat)
    ensures n <= 3
    ensures n == 0 <==> req.Reset? || req.Unsupported?
    ensures req.AddTransition? <==> n == 3
  {
    match req
    case AddTransition => 3
    case Accept => 1
    case Reject => 1
    case _ => 0
  }

  datatype Reply = Reply(snap: Snapshot, rc: int)

  /** The effect of one control request on the engine `s`, given the caller's
      payload and the copy failure model. */
  function Apply(s: Snapshot, req: Request, payload: seq<Byte>, f: Fault): (r: Reply)
    requires s.WellFormed()
    ensures r.snap.WellFormed()
  {
    match req
    case Reset => Reply(s.(current := 0), OK)
    case AddTransition =>
      var rc := CopyRc(|payload|, 0, 3, f);
      if rc != OK then Reply(s, rc)
      else Reply(s.(table := s.table[Index(payload[0], payload[1]) := payload[2]], current := 0), OK)
    case Accept => SetFlag(s, payload, f, 1)
    case Reject => SetFlag(s, payload, f, 0)
    case Unsupported(_) => Reply(s, ENOTTY)
  }

  /** Accept and Reject: copy one byte naming a state, set its flag, reset the
      current state. */
  function SetFlag(s: Snapshot, payload: seq<Byte>, f: Fault, flag: Byte): (r: Reply)
    requires s.WellFormed()
    ensures r.snap.WellFormed()
  {
    var rc := CopyRc(|payload|, 0, 1, f);
    if rc != OK then Reply(s, rc)
    else Reply(s.(accepting := s.accepting[payload[0] := flag], current := 0), OK)
  }

  /** A request reads nothing of the caller's payload past its payload size;
      a payload shorter than that fails the copy, with the injected code or
      with EPERM, and changes nothing: there is no separate length check. */
  lemma PayloadPrefixOnly(s: Snapshot, req: Request, payload: seq<Byte>, f: Fault)
    requires s.WellFormed()
    ensures PayloadSize(req) <= |payload| ==>
              Apply(s, req, payload, f) == Apply(s, req, payload[..PayloadSize(req)], f)
    ensures |payload| < PayloadSize(req) ==>
              Apply(s, req, payload, f) == Reply(s, if FailsAt(f, 0) then f.code else EPERM)
  {
  }

  /** A request succeeds exactly when it is Reset, or another recognised
      request whose payload copy succeeds. */
  lemma SucceedsIff(s: Snapshot, req: Request, payload: seq<Byte>, f: Fault)
    requires s.WellFormed()
    ensures Apply(s, req, payload, f).rc == OK <==>
              req.Reset? || (!req.Unsupported? && CopyRc(|payload|, 0, PayloadSize(req), f) == OK)
  {
  }

  /** Reset zeroes the current state and changes nothing else. */
  lemma ResetOnlyResets(s: Snapshot, payload: seq<Byte>, f: Fault)
    requires s.WellFormed()
    ensures var r := Apply(s, Reset, payload, f);
      && r.rc == OK && r.snap.current == 0
      && r.snap.accepting == s.accepting && r.snap.table == s.table
  {
  }

  /** A successful AddTransition(q, a, n) makes `n` the successor of `(q, a)`,
      leaves the successor of every other pair and every flag alone, and
      resets the current state. */
  lemma AddTransitionFrame(s: Snapshot, payload: seq<Byte>, f: Fault)
    requires s.WellFormed()
    requires Apply(s, AddTransition, payload, f).rc == OK
    ensures |payload| >= 3
    ensures var r := Apply(s, AddTransition, payload, f).snap;
      && Next(r.table, payload[0], payload[1]) == payload[2]
      && (forall q: Byte, a: Byte :: (q != payload[0] || a != payload[1]) ==>
            Next(r.table, q, a) == Next(s.table, q, a))
      && r.accepting == s.accepting
      && r.current == 0
  {
    var r := Apply(s, AddTransition, payload, f).snap;
    forall q: Byte, a: Byte | q != payload[0] || a != payload[1]
      ensures Next(r.table, q, a) == Next(s.table, q, a)
    {
      assert Index(q, a) != Index(payload[0], payload[1]);
    }
  }

  /** A successful Accept(q) or Reject(q) sets the flag of `q` to 1 or 0,
      leaves every other flag and the whole table alone, and resets the
      current state. */
  lemma SetFlagFrame(s: Snapshot, req: Request, payload: seq<Byte>, f: Fault)
    requires s.WellFormed()
    requires req == Accept || req == Reject
    requires Apply(s, req, payload, f).rc == OK
    ensures |payload| >= 1
    ensures var r := Apply(s, req, payload, f).snap;
      && r.accepting[payload[0]] == (if req == Accept then 1 else 0)
      && (forall q: Byte :: q != payload[0] ==> r.accepting[q] == s.accepting[q])
      && r.table == s.table
      && r.current == 0
  {
  }

  /** A request that fails changes nothing: an unknown code answers ENOTTY,
      a failed payload copy answers the copy's code. */
  lemma FailureChangesNothing(s: Snapshot, req: Request, payload: seq<Byte>, f: Fault)
    requires s.WellFormed()
    requires Apply(s, req, payload, f).rc != OK
    ensures Apply(s, req, payload, f).snap == s
    ensures Apply(s, req, payload, f).rc ==
              if req.Unsupported? then ENOTTY else CopyRc(|payload|, 0, PayloadSize(req), f)
  {
  }
}
