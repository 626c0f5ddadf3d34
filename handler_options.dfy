/** `extendOptions` (src/parser.js:31-55): the option set of a regex handler,
    with each flag the caller left undefined filled in with its default. */
module HandlerOptions {
  import opened Wrappers
  import opened JsValue

  /** An option set as the caller wrote it; `None` is a flag left undefined.
      `value`, when truthy, replaces whatever the transformer returns. */
  datatype Options = Options(
    skipIfAlreadyFound: Option<bool>,
    skipFromTitle: Option<bool>,
    skipIfFirst: Option<bool>,
    remove: Option<bool>,
    value: Value)

  /** `{}`: what `options || {}` yields for a missing options argument. */
  const EmptyOptions := Options(None, None, None, None, Undefined)

  const DefaultSkipIfAlreadyFound := true
  const DefaultSkipFromTitle := false
  const DefaultSkipIfFirst := false
  const DefaultRemove := false

  /** Reading a flag as a condition: `undefined` is falsy. */
  predicate IsSet(flag: Option<bool>) {
    flag == Some(true)
  }

  /** Every flag is defined. */
  predicate Complete(o: Options) {
    o.skipIfAlreadyFound.Some? && o.skipFromTitle.Some? && o.skipIfFirst.Some? && o.remove.Some?
  }

  /** The options `extendOptions` leaves behind: a supplied flag is kept as
      given, an undefined one takes its default, `value` is untouched. */
  function WithDefaults(o: Options): (r: Options)
    ensures Complete(r) && r.value == o.value
    ensures o.skipIfAlreadyFound.Some? ==> r.skipIfAlreadyFound == o.skipIfAlreadyFound
    ensures o.skipFromTitle.Some? ==> r.skipFromTitle == o.skipFromTitle
    ensures o.skipIfFirst.Some? ==> r.skipIfFirst == o.skipIfFirst
    ensures o.remove.Some? ==> r.remove == o.remove
    ensures o.skipIfAlreadyFound.None? ==> IsSet(r.skipIfAlreadyFound) == DefaultSkipIfAlreadyFound
    ensures o.skipFromTitle.None? ==> IsSet(r.skipFromTitle) == DefaultSkipFromTitle
    ensures o.skipIfFirst.None? ==> IsSet(r.skipIfFirst) == DefaultSkipIfFirst
    ensures o.remove.None? ==> IsSet(r.remove) == DefaultRemove
  {
    Options(
      Some(o.skipIfAlreadyFound.GetOr(DefaultSkipIfAlreadyFound)),
      Some(o.skipFromTitle.GetOr(DefaultSkipFromTitle)),
      Some(o.skipIfFirst.GetOr(DefaultSkipIfFirst)),
      Some(o.remove.GetOr(DefaultRemove)),
      o.value)
  }

  /** Extending options twice is extending them once, and options whose
      flags are all defined are left exactly as they are. */
  lemma WithDefaultsIdempotent(o: Options)
    ensures WithDefaults(WithDefaults(o)) == WithDefaults(o)
    ensures Complete(o) ==> WithDefaults(o) == o
  {
  }

  /** The options object the caller passes, which `extendOptions` mutates. */
  class OptionsObject {
    var skipIfAlreadyFound: Option<bool>
    var skipFromTitle: Option<bool>
    var skipIfFirst: Option<bool>
    var remove: Option<bool>
    var value: Value

    /** The object's properties, as a value. */
    function Snapshot(): Options
      reads this
    {
      Options(skipIfAlreadyFound, skipFromTitle, skipIfFirst, remove, value)
    }

    /** An object literal with the given properties. */
    constructor (o: Options)
      ensures Snapshot() == o
    {
      skipIfAlreadyFound := o.skipIfAlreadyFound;
      skipFromTitle := o.skipFromTitle;
      skipIfFirst := o.skipIfFirst;
      remove := o.remove;
      value := o.value;
    }
  }

  /** `extendOptions(options)`: a missing options argument (`null`) becomes a
      fresh empty object; the object's undefined flags are set in place and
      the same object is returned. */
  method ExtendOptions(options: OptionsObject?) returns (r: OptionsObject)
    modifies options
    ensures options != null ==> r == options
    ensures options == null ==> fresh(r)
    ensures r.Snapshot() == WithDefaults(if options == null then EmptyOptions else old(options.Snapshot()))
  {
    if options == null {
      r := new OptionsObject(EmptyOptions);
    } else {
      r := options;
    }
    if r.skipIfAlreadyFound.None? {
      r.skipIfAlreadyFound := Some(DefaultSkipIfAlreadyFound);
    }
    if r.skipFromTitle.None? {
      r.skipFromTitle := Some(DefaultSkipFromTitle);
    }
    if r.skipIfFirst.None? {
      r.skipIfFirst := Some(DefaultSkipIfFirst);
    }
    if r.remove.None? {
      r.remove := Some(DefaultRemove);
    }
  }
}
