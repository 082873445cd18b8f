/**
 * Live validation while the user types: every input event on the form goes
 * through a debouncer, which keeps one timer handle and re-arms it with the
 * latest event's arguments, so only the last event of a burst reaches the
 * callback; the callback dispatches on the target's id to one check.
 */
module LiveTrigger {
  import opened Wrappers
  import opened FieldRules
  import opened FormModel

  /**
   * debounce(fn): the captured timeoutId and the host's timer table.
   * Timer handles are positive; 0 stands for the initial undefined timeoutId.
   * timers maps each armed handle to the arguments its callback will apply fn to.
   */
  class Debouncer<A> {
    var timeoutId: nat
    var timers: map<nat, A>
    /** the handle the host's setTimeout returns next */
    var nextHandle: nat
    /** the arguments of every call of fn so far, in order */
    ghost var calls: seq<A>

    /** At most one timer is armed, and it is the one timeoutId names. */
    ghost predicate Valid()
      reads this
    {
      0 < nextHandle && timeoutId < nextHandle && timers.Keys <= {timeoutId} && 0 !in timers
    }

    /** The arguments of the armed callback, if any. */
    function Pending(): Option<A>
      reads this
    {
      if timeoutId in timers then Some(timers[timeoutId]) else None
    }

    constructor ()
      ensures Valid() && Pending() == None && calls == []
    {
      timeoutId := 0;
      timers := map[];
      nextHandle := 1;
      calls := [];
    }

    /** The debounced function is called: cancel the armed timer, arm a new one with args. */
    method Notify(args: A)
      requires Valid()
      modifies this
      ensures Valid() && Pending() == Some(args) && calls == old(calls)
    {
      if timeoutId != 0 {
        // clearTimeout(timeoutId); clearing a timer that already ran does nothing
        timers := map h | h in timers && h != timeoutId :: timers[h];
      }
      // timeoutId = setTimeout(...)
      var handle := nextHandle;
      nextHandle := nextHandle + 1;
      timers := timers[handle := args];
      timeoutId := handle;
    }

    /**
     * The delay elapses: the armed callback, if any, runs fn once with its
     * arguments. timeoutId keeps the spent handle, as in the source.
     */
    method Fire() returns (args: Option<A>)
      requires Valid()
      modifies this
      ensures Valid() && args == old(Pending()) && Pending() == None
      ensures calls == old(calls) + (if args.Some? then [args.value] else [])
      ensures timeoutId == old(timeoutId)
    {
      if timeoutId in timers {
        args := Some(timers[timeoutId]);
        timers := map h | h in timers && h != timeoutId :: timers[h];
        calls := calls + [args.value];
      } else {
        args := None;
      }
    }
  }

  /** The switch on the event target's id: the field whose id it is, or none. */
  function ValidatorFor(id: string): (f: Option<FieldId>)
    ensures forall g :: f == Some(g) <==> IdOf(g) == id
  {
    if id == "email" then Some(Email)
    else if id == "country" then Some(Country)
    else if id == "zip" then Some(Zip)
    else if id == "password" then Some(Password)
    else if id == "pass-conf" then Some(PassConf)
    else None
  }

  /** The callback: run the check of the field whose id is targetId, and nothing else. */
  method Dispatch(form: Form, targetId: string)
    requires form.WellFormed()
    modifies form.email`classes, form.email`message, form.country`classes, form.country`message
    modifies form.zip`classes, form.zip`message, form.password`classes, form.password`message
    modifies form.passConf`classes, form.passConf`message
    ensures form.Current() == old(form.Current())
    ensures forall f :: ValidatorFor(targetId) == Some(f) ==>
      Reflects(form.Element(f), old(form.Element(f).classes), FieldOutcome(f, form.Current()))
    ensures forall f :: ValidatorFor(targetId) != Some(f) ==>
      form.Element(f).classes == old(form.Element(f).classes) && form.Element(f).message == old(form.Element(f).message)
  {
    form.ElementsDistinct();
    match ValidatorFor(targetId)
    case None =>
    case Some(Email) => var _ := form.CheckEmail();
    case Some(Country) => var _ := form.CheckCountry();
    case Some(Zip) => var _ := form.CheckZip();
    case Some(Password) => var _ := form.CheckPassword();
    case Some(PassConf) => var _ := form.CheckPasswordConf();
  }

  /** The form with its debounced input listener; an input event is reduced to its target's id. */
  class LiveValidation {
    const form: Form
    const debouncer: Debouncer<string>

    ghost predicate Valid()
      reads debouncer
    {
      form.WellFormed() && debouncer.Valid()
    }

    constructor (v: Values)
      ensures Valid() && form.Current() == v && debouncer.Pending() == None && debouncer.calls == []
    {
      form := new Form(v);
      debouncer := new Debouncer();
    }

    /** An input event on the element with id targetId. */
    method OnInput(targetId: string)
      requires Valid()
      modifies debouncer
      ensures Valid() && debouncer.Pending() == Some(targetId) && debouncer.calls == old(debouncer.calls)
    {
      debouncer.Notify(targetId);
    }

    /** The debounce delay elapses: the last pending event is dispatched, once. */
    method OnTimeout() returns (dispatched: Option<string>)
      requires Valid()
      modifies debouncer
      modifies form.email`classes, form.email`message, form.country`classes, form.country`message
      modifies form.zip`classes, form.zip`message, form.password`classes, form.password`message
      modifies form.passConf`classes, form.passConf`message
      ensures Valid() && dispatched == old(debouncer.Pending()) && debouncer.Pending() == None
      ensures debouncer.calls == old(debouncer.calls) + (if dispatched.Some? then [dispatched.value] else [])
      ensures form.Current() == old(form.Current())
      ensures forall f :: dispatched.Some? && ValidatorFor(dispatched.value) == Some(f) ==>
        Reflects(form.Element(f), old(form.Element(f).classes), FieldOutcome(f, form.Current()))
      ensures forall f :: (dispatched.None? || ValidatorFor(dispatched.value) != Some(f)) ==>
        form.Element(f).classes == old(form.Element(f).classes) && form.Element(f).message == old(form.Element(f).message)
    {
      dispatched := debouncer.Fire();
      if dispatched.Some? {
        Dispatch(form, dispatched.value);
      }
    }
  }

  /** The values after a sequence of edits, each a field and its new value, in order. */
  function Typed(v: Values, edits: seq<(FieldId, string)>): (w: Values)
    ensures |edits| > 0 ==> ValueOf(edits[|edits| - 1].0, w) == edits[|edits| - 1].1
    ensures forall g :: (forall k :: 0 <= k < |edits| ==> edits[k].0 != g) ==> ValueOf(g, w) == ValueOf(g, v)
  {
    if edits == [] then v
    else
      var last := edits[|edits| - 1];
      WithValue(Typed(v, edits[..|edits| - 1]), last.0, last.1)
  }

  /**
   * A burst of input events, each on any field: the values become those typed,
   * the debouncer holds the last event's target, nothing has been dispatched
   * and no field's classes or message change.
   */
  method Burst(live: LiveValidation, edits: seq<(FieldId, string)>)
    requires live.Valid() && |edits| > 0
    modifies live.debouncer, live.form.email`value, live.form.country`value, live.form.zip`value
    modifies live.form.password`value, live.form.passConf`value
    ensures live.Valid() && live.form.Current() == Typed(old(live.form.Current()), edits)
    ensures live.debouncer.calls == old(live.debouncer.calls)
    ensures live.debouncer.Pending() == Some(IdOf(edits[|edits| - 1].0))
  {
    var form := live.form;
    var i := 0;
    while i < |edits|
      invariant 0 <= i <= |edits| && live.Valid()
      invariant form.Current() == Typed(old(form.Current()), edits[..i])
      invariant live.debouncer.calls == old(live.debouncer.calls)
      invariant i > 0 ==> live.debouncer.Pending() == Some(IdOf(edits[i - 1].0))
    {
      var (f, s) := edits[i];
      form.Edit(f, s);
      live.OnInput(IdOf(f));
      assert edits[..i + 1][..i] == edits[..i];
      i := i + 1;
    }
    assert edits[..i] == edits;
  }

  /**
   * A burst of input events followed by the timer: the wrapped function runs
   * exactly once, on the last event's target; that field shows the outcome of
   * its final value, and no other field's classes or message change.
   */
  method BurstThenTimeout(live: LiveValidation, edits: seq<(FieldId, string)>)
    requires live.Valid() && |edits| > 0
    modifies live.debouncer, live.form.email, live.form.country, live.form.zip, live.form.password, live.form.passConf
    ensures live.Valid() && live.form.Current() == Typed(old(live.form.Current()), edits)
    ensures live.debouncer.calls == old(live.debouncer.calls) + [IdOf(edits[|edits| - 1].0)]
    ensures var f := edits[|edits| - 1].0;
      Reflects(live.form.Element(f), old(live.form.Element(f).classes), FieldOutcome(f, live.form.Current()))
    ensures forall g :: g != edits[|edits| - 1].0 ==>
      live.form.Element(g).classes == old(live.form.Element(g).classes) && live.form.Element(g).message == old(live.form.Element(g).message)
  {
    Burst(live, edits);
    var dispatched := live.OnTimeout();
  }
}
