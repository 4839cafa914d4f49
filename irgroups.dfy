/**
 * The IR of a group: its name, its index in the groups vector, its IO
 * arities, its key (none for the main group) and its call sites. Statements
 * are abstracted away; call-site arguments are kept only as counts.
 */
module IRGroups {
  import opened Wrappers
  import opened Names

  /** A call to another group: the callee's index and the lengths of the argument lists. */
  datatype CallSite = CallSite(name: string, calleeId: nat, inputs: nat, outputVars: nat, outputs: nat)

  datatype GroupBody = GroupBody(name: string, id: nat, inputCount: nat, outputCount: nat,
                                 key: Option<nat>, callsites: seq<CallSite>)

  /** `is_main`: the top-level group is the one without a key. */
  predicate IsMain(g: GroupBody)
  {
    g.key.None?
  }

  /** `validate_callsite`: the callee exists at its index and the arities agree. */
  function ValidateCallsite(cs: CallSite, groups: seq<GroupBody>): (r: Result<()>)
    ensures r.Ok? <==> cs.calleeId < |groups| && groups[cs.calleeId].id == cs.calleeId &&
                       groups[cs.calleeId].inputCount == cs.inputs &&
                       groups[cs.calleeId].outputCount == cs.outputs && cs.outputs == cs.outputVars
    ensures cs.calleeId >= |groups| ==> r == Err("Callee with id " + NatToString(cs.calleeId) + " was not found")
  {
    if cs.calleeId >= |groups| then
      Err("Callee with id " + NatToString(cs.calleeId) + " was not found")
    else
      var callee := groups[cs.calleeId];
      if callee.id != cs.calleeId then
        Err("Callsite points to \"" + cs.name + "\" (" + NatToString(cs.calleeId) + ") but callee was \"" +
            callee.name + "\" (" + NatToString(callee.id) + ")")
      else if callee.inputCount != cs.inputs then
        Err("Callee \"" + callee.name + "\" (" + NatToString(callee.id) + ") was expecting " +
            NatToString(callee.inputCount) + " inputs but callsite has " + NatToString(cs.inputs))
      else if callee.outputCount != cs.outputs then
        Err("Callee \"" + callee.name + "\" (" + NatToString(callee.id) + ") was expecting " +
            NatToString(callee.outputCount) + " outputs but callsite has " + NatToString(cs.outputs))
      else if cs.outputs != cs.outputVars then
        Err("Call to \"" + cs.name + "\" (" + NatToString(cs.calleeId) + ") has " + NatToString(cs.outputs) +
            " outputs but declared " + NatToString(cs.outputVars) + " output variables")
      else Ok(())
  }

  /** The error lines reported for the call sites `css`, numbered from `callNo`. */
  function CallsiteErrors(css: seq<CallSite>, groups: seq<GroupBody>, callNo: nat): seq<string>
    decreases |css|
  {
    if css == [] then []
    else
      CallsiteError(css[0], groups, callNo) + CallsiteErrors(css[1..], groups, callNo + 1)
  }

  /** The error line for call site number `callNo`, if it fails validation. */
  function CallsiteError(cs: CallSite, groups: seq<GroupBody>, callNo: nat): (r: seq<string>)
    ensures |r| <= 1
    ensures r == [] <==> ValidateCallsite(cs, groups).Ok?
  {
    var v := ValidateCallsite(cs, groups);
    if v.Err? then ["On callsite " + NatToString(callNo) + ": " + v.error] else []
  }

  /** The number of call sites that fail validation. */
  function FailingCount(css: seq<CallSite>, groups: seq<GroupBody>): nat
  {
    if css == [] then 0 else (if ValidateCallsite(css[0], groups).Err? then 1 else 0) + FailingCount(css[1..], groups)
  }

  /** One error per failing call site, and none exactly when every call site validates. */
  lemma {:induction false} CallsiteErrorsCount(css: seq<CallSite>, groups: seq<GroupBody>, callNo: nat)
    ensures |CallsiteErrors(css, groups, callNo)| == FailingCount(css, groups)
    ensures CallsiteErrors(css, groups, callNo) == [] <==>
      forall i :: 0 <= i < |css| ==> ValidateCallsite(css[i], groups).Ok?
    decreases |css|
  {
    if css != [] {
      CallsiteErrorsCount(css[1..], groups, callNo + 1);
      assert forall i :: 1 <= i < |css| ==> css[i] == css[1..][i - 1];
    }
  }

  lemma {:induction false} CallsiteErrorsSnoc(css: seq<CallSite>, cs: CallSite, groups: seq<GroupBody>, callNo: nat)
    ensures CallsiteErrors(css + [cs], groups, callNo) ==
      CallsiteErrors(css, groups, callNo) + CallsiteError(cs, groups, callNo + |css|)
    decreases |css|
  {
    if css == [] {
      assert [cs][1..] == [];
      assert CallsiteErrors([cs], groups, callNo) == CallsiteError(cs, groups, callNo) + CallsiteErrors([], groups, callNo + 1);
    } else {
      var head, tail := CallsiteError(css[0], groups, callNo), CallsiteError(cs, groups, callNo + |css|);
      assert (css + [cs])[0] == css[0];
      assert (css + [cs])[1..] == css[1..] + [cs];
      CallsiteErrorsSnoc(css[1..], cs, groups, callNo + 1);
      assert CallsiteErrors(css + [cs], groups, callNo) == head + CallsiteErrors(css[1..] + [cs], groups, callNo + 1);
      assert CallsiteErrors(css[1..] + [cs], groups, callNo + 1) == CallsiteErrors(css[1..], groups, callNo + 1) + tail;
      assert CallsiteErrors(css, groups, callNo) == head + CallsiteErrors(css[1..], groups, callNo + 1);
    }
  }

  /** `validate`: the per-call-site errors, and a failed status exactly when there is any. */
  method Validate(g: GroupBody, groups: seq<GroupBody>) returns (status: Result<()>, errors: seq<string>)
    ensures errors == CallsiteErrors(g.callsites, groups, 0)
    ensures status.Ok? <==> errors == []
    ensures status.Err? ==> status.error == "Validation of group " + g.name + " failed with " +
                                            NatToString(|errors|) + " errors"
  {
    errors := [];
    var callNo := 0;
    while callNo < |g.callsites|
      invariant 0 <= callNo <= |g.callsites|
      invariant errors == CallsiteErrors(g.callsites[..callNo], groups, 0)
    {
      var cs := g.callsites[callNo];
      ValidateStep(g.callsites, callNo, groups, errors);
      var r := ValidateCallsite(cs, groups);
      if r.Err? {
        errors := errors + ["On callsite " + NatToString(callNo) + ": " + r.error];
      }
      callNo := callNo + 1;
    }
    assert g.callsites[..callNo] == g.callsites;
    if errors == [] {
      status := Ok(());
    } else {
      status := Err("Validation of group " + g.name + " failed with " + NatToString(|errors|) + " errors");
    }
  }

  /** One loop step of `validate`: a failing call site appends its numbered message. */
  lemma ValidateStep(css: seq<CallSite>, callNo: nat, groups: seq<GroupBody>, errors: seq<string>)
    requires callNo < |css| && errors == CallsiteErrors(css[..callNo], groups, 0)
    ensures var v := ValidateCallsite(css[callNo], groups);
      CallsiteErrors(css[..callNo + 1], groups, 0) ==
        if v.Err? then errors + ["On callsite " + NatToString(callNo) + ": " + v.error] else errors
  {
    assert css[..callNo + 1] == css[..callNo] + [css[callNo]];
    CallsiteErrorsSnoc(css[..callNo], css[callNo], groups, 0);
    if ValidateCallsite(css[callNo], groups).Ok? {
      assert errors + CallsiteError(css[callNo], groups, callNo) == errors;
    }
  }

  /** A group validates exactly when all of its call sites do. */
  lemma ValidateOkIff(g: GroupBody, groups: seq<GroupBody>)
    ensures CallsiteErrors(g.callsites, groups, 0) == [] <==>
      forall i :: 0 <= i < |g.callsites| ==> ValidateCallsite(g.callsites[i], groups).Ok?
    ensures |CallsiteErrors(g.callsites, groups, 0)| == FailingCount(g.callsites, groups)
  {
    CallsiteErrorsCount(g.callsites, groups, 0);
  }

  /**
   * `SymbolicEqv::equivalent` on groups; `bodies` stands for the comparison of
   * the gates, equality constraints, lookups and call sites.
   */
  function Equivalent(lhs: GroupBody, rhs: GroupBody, bodies: bool): (r: bool)
    ensures r <==> !IsMain(lhs) && !IsMain(rhs) && lhs.key == rhs.key &&
                   lhs.inputCount == rhs.inputCount && lhs.outputCount == rhs.outputCount && bodies
  {
    if IsMain(lhs) || IsMain(rhs) then false
    else lhs.key.value == rhs.key.value &&
         lhs.inputCount == rhs.inputCount && lhs.outputCount == rhs.outputCount && bodies
  }

  /** The main group is never equivalent to any group, itself included. */
  lemma MainNeverEquivalent(main: GroupBody, other: GroupBody, bodies: bool)
    requires IsMain(main)
    ensures !Equivalent(main, other, bodies) && !Equivalent(other, main, bodies)
  {
  }

  /** Equivalence is symmetric in the groups. */
  lemma EquivalentSymmetric(lhs: GroupBody, rhs: GroupBody, bodies: bool)
    ensures Equivalent(lhs, rhs, bodies) == Equivalent(rhs, lhs, bodies)
  {
  }
}
