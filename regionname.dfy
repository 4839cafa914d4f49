/**
 * The region name state machine: a region starts unnamed, may receive an
 * automatic name once, and may be named manually once, which overrides an
 * automatic name.
 */
module RegionName {
  import opened Wrappers

  datatype Status = Unassigned | Auto | Assigned

  datatype NameState = NameState(status: Status, name: Option<string>)

  /** Every reachable state names exactly the regions that are not unassigned. */
  predicate Consistent(s: NameState)
  {
    s.status.Unassigned? <==> s.name.None?
  }

  const Default := NameState(Unassigned, None)

  /** `auto`: names the region only when nothing was assigned so far. */
  function AutoStep(s: NameState, n: string): (r: NameState)
    ensures s.status.Unassigned? ==> r == NameState(Auto, Some(n))
    ensures !s.status.Unassigned? ==> r == s
  {
    if !s.status.Unassigned? then s else NameState(Auto, Some(n))
  }

  /** `assign`: a manual name; a second manual name is an error (a panic in the source). */
  function AssignStep(s: NameState, n: string): (r: Result<NameState>)
    ensures r.Err? <==> s.status.Assigned?
    ensures r.Ok? ==> r.value == NameState(Assigned, Some(n))
  {
    if s.status.Assigned? then Err("Double manual assignment!") else Ok(NameState(Assigned, Some(n)))
  }

  /** `as_ref`: the name, `"<Unassigned>"` before any; the inconsistent case is an error. */
  function AsStr(s: NameState): (r: Result<string>)
    ensures Consistent(s) ==> r.Ok?
    ensures s.name.Some? ==> r == Ok(s.name.value)
    ensures s.name.None? && s.status.Unassigned? ==> r == Ok("<Unassigned>")
  {
    match s.name
    case Some(n) => Ok(n)
    case None =>
      if s.status.Unassigned? then Ok("<Unassigned>")
      else Err("Inconsistency detected: No name was assigned but has status")
  }

  predicate HasValue(s: NameState)
  {
    !s.status.Unassigned? && s.name.Some?
  }

  /** Both transitions keep the state consistent, and each leaves a name behind. */
  lemma StepsKeepConsistent(s: NameState, n: string)
    requires Consistent(s)
    ensures Consistent(AutoStep(s, n)) && HasValue(AutoStep(s, n))
    ensures AssignStep(s, n).Ok? ==> Consistent(AssignStep(s, n).value) && HasValue(AssignStep(s, n).value)
  {
  }

  /** A fresh name is unassigned and has no value. */
  lemma DefaultIsUnassigned()
    ensures Consistent(Default) && Default.status.Unassigned? && !HasValue(Default)
    ensures AsStr(Default) == Ok("<Unassigned>")
  {
  }

  /** Only the first `auto` counts. */
  lemma AutoIdempotent(s: NameState, a: string, b: string)
    ensures AutoStep(AutoStep(s, a), b) == AutoStep(s, a)
  {
  }

  /** A manual name overrides an unassigned or automatic one; afterwards `auto` does nothing. */
  lemma AssignOverrides(s: NameState, a: string, b: string)
    requires !s.status.Assigned?
    ensures AssignStep(s, a) == Ok(NameState(Assigned, Some(a)))
    ensures AssignStep(AutoStep(Default, b), a) == Ok(NameState(Assigned, Some(a)))
    ensures AutoStep(AssignStep(s, a).value, b) == AssignStep(s, a).value
    ensures AsStr(AssignStep(AutoStep(s, b), a).value) == Ok(a)
  {
  }

  /** The source's tests, step by step. */
  lemma NameExamples()
    ensures AsStr(AutoStep(Default, "test name")) == Ok("test name")
    ensures AsStr(AutoStep(AutoStep(Default, "test name"), "test name 2")) == Ok("test name")
    ensures AutoStep(NameState(Assigned, Some("assigned name")), "test name") == NameState(Assigned, Some("assigned name"))
    ensures AssignStep(AssignStep(Default, "test name").value, "assigned name").Err?
  {
  }

  class RegionName {
    var status: Status
    var name: Option<string>

    function State(): NameState
      reads this
    {
      NameState(status, name)
    }

    ghost predicate Valid()
      reads this
    {
      Consistent(State())
    }

    constructor ()
      ensures Valid() && State() == Default
    {
      status := Unassigned;
      name := None;
    }

    predicate IsUnassigned()
      reads this
    {
      status.Unassigned?
    }

    predicate IsAssigned()
      reads this
    {
      status.Assigned?
    }

    /** `auto` with the name the source computes lazily, only when it is used. */
    method AutoName(n: string)
      requires Valid()
      modifies this
      ensures Valid() && State() == AutoStep(old(State()), n)
    {
      if !IsUnassigned() {
        return;
      }
      status, name := Auto, Some(n);
    }

    /** `assign_from_ref`: the double-assignment panic is an `Err` that leaves the name alone. */
    method AssignFromRef(n: string) returns (r: Result<()>)
      requires Valid()
      modifies this
      ensures Valid()
      ensures r.Err? <==> AssignStep(old(State()), n).Err?
      ensures r.Ok? ==> State() == AssignStep(old(State()), n).value
      ensures r.Err? ==> State() == old(State())
    {
      if IsAssigned() {
        return Err("Double manual assignment!");
      }
      status, name := Assigned, Some(n);
      r := Ok(());
    }

    function AsRef(): (r: Result<string>)
      reads this
      requires Valid()
      ensures r.Ok?
      ensures name.Some? ==> r.value == name.value
      ensures name.None? ==> r.value == "<Unassigned>"
    {
      AsStr(State())
    }
  }
}
